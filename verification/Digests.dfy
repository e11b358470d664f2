/** Image activation digests over a run of reconciliations. */
module Digests {
  import opened Component
  import opened UseCounts
  import opened Activation
  import opened StackController

  lemma {:induction false} ImageStatusAt(images: seq<Image>, n: nat, version: string, i: nat,
                                         previous: seq<VersionStatus>, w: StackWorld)
    requires n <= |images|
    ensures |ImageStatuses(images, n, version, i, previous, w)| == n
    ensures forall j :: 0 <= j < n ==>
      ImageStatuses(images, n, version, i, previous, w)[j] ==
      ImageStatus(images[j].id, images[j].image, StatusDigest(previous, version, images[j].image, w.lookup(i, j)))
  {
    if n != 0 {
      ImageStatusAt(images, n - 1, version, i, previous, w);
    }
  }

  /** A version of the spec, the version it was replaced by, and its status. */
  predicate BuiltFrom(v: StackVersion, v': StackVersion, s: VersionStatus, i: nat, m: UseMap,
                      previous: seq<VersionStatus>, w: StackWorld)
  {
    if v.IsInactive() then v' == v && s == InactiveStatus(v)
    else
      var stripped := StripTags(v.images, w.repository);
      stripped.ok && v' == v.(images := stripped.images) && s == ActiveStatus(v', i, m, previous, w)
  }

  /** The first n versions are rebuilt, the others untouched. */
  predicate BuiltUpTo(versions: seq<StackVersion>, r: Rebuilt, n: nat, m: UseMap, previous: seq<VersionStatus>,
                      w: StackWorld) {
    && |r.versions| == |versions| && n == |r.statuses| <= |versions|
    && (forall i :: n <= i < |versions| ==> r.versions[i] == versions[i])
    && forall i :: 0 <= i < n ==> BuiltFrom(versions[i], r.versions[i], r.statuses[i], i, m, previous, w)
  }

  lemma BuiltStep(versions: seq<StackVersion>, r: Rebuilt, n: nat, m: UseMap, previous: seq<VersionStatus>,
                  w: StackWorld)
    requires r.ok && n < |versions| && BuiltUpTo(versions, r, n, m, previous, w)
    ensures var r' := RebuildNext(r, n, m, previous, w);
      r'.ok ==> BuiltUpTo(versions, r', n + 1, m, previous, w)
  {
    var r' := RebuildNext(r, n, m, previous, w);
    if r'.ok {
      assert BuiltFrom(versions[n], r'.versions[n], r'.statuses[n], n, m, previous, w);
      forall i | 0 <= i < n
        ensures BuiltFrom(versions[i], r'.versions[i], r'.statuses[i], i, m, previous, w)
      {
        assert r'.versions[i] == r.versions[i] && r'.statuses[i] == r.statuses[i];
      }
    }
  }

  /** The rebuilt status has one entry for each version of the spec, at the same place. */
  lemma {:induction false} RebuildAt(versions: seq<StackVersion>, n: nat, m: UseMap, previous: seq<VersionStatus>,
                                     w: StackWorld)
    requires n <= |versions| && Rebuild(versions, n, m, previous, w).ok
    ensures BuiltUpTo(versions, Rebuild(versions, n, m, previous, w), n, m, previous, w)
  {
    if n != 0 {
      RebuildAt(versions, n - 1, m, previous, w);
      BuiltStep(versions, Rebuild(versions, n - 1, m, previous, w), n - 1, m, previous, w);
    }
  }

  lemma {:induction false} FindImageIsFirst(images: seq<ImageStatus>, image: string)
    ensures FindImage(images, image).Some? <==> exists x :: x in images && x.image == image
    ensures FindImage(images, image).Some? ==>
      exists x :: x in images && x.image == image && x.digest == FindImage(images, image).value
  {
    if images != [] && images[0].image != image {
      FindImageIsFirst(images[1..], image);
    }
  }

  predicate Reports(versions: seq<VersionStatus>, version: string, x: ImageStatus) {
    exists v :: v in versions && v.version == version && x in v.images
  }

  lemma {:induction false} FindDigestIsReported(versions: seq<VersionStatus>, version: string, image: string)
    ensures FindDigest(versions, version, image).Some? <==>
      exists x :: Reports(versions, version, x) && x.image == image
    ensures FindDigest(versions, version, image).Some? ==>
      exists x :: Reports(versions, version, x) && x.image == image &&
                  x.digest == FindDigest(versions, version, image).value
  {
    if versions != [] {
      var first, rest := versions[0], versions[1..];
      assert versions == [first] + rest;
      FindImageIsFirst(first.images, image);
      FindDigestIsReported(rest, version, image);
      assert forall x :: Reports(versions, version, x) <==>
        (first.version == version && x in first.images) || Reports(rest, version, x);
    }
  }

  /** The first status for the image, in the versions of that name, has the digest: this is what the controller goes
      by. */
  predicate IsRecorded(versions: seq<VersionStatus>, version: string, image: string, d: ImageDigest) {
    FindDigest(versions, version, image) == Some(d) && d.activation != ""
  }

  /** The spec has the version active, and the version has the image once its tags are removed. */
  predicate Uses(versions: seq<StackVersion>, version: string, image: string, repository: string -> Option<string>) {
    exists i, j ::
      && 0 <= i < |versions| && versions[i].version == version && !versions[i].IsInactive()
      && 0 <= j < |versions[i].images| && StripTags(versions[i].images, repository).images[j].image == image
  }

  lemma RecordedDigestInEntry(v: StackVersion, v': StackVersion, s: VersionStatus, i: nat, m: UseMap,
                              previous: seq<VersionStatus>, w: StackWorld, image: string, d: ImageDigest)
    requires BuiltFrom(v, v', s, i, m, previous, w) && IsRecorded(previous, v.version, image, d)
    ensures s.version == v.version
    ensures forall x :: x in s.images && x.image == image ==> x.digest == d
  {
    if !v.IsInactive() {
      ImageStatusAt(v'.images, |v'.images|, v.version, i, previous, w);
    }
  }

  lemma UsedImageIsReported(versions: seq<StackVersion>, m: UseMap, previous: seq<VersionStatus>, w: StackWorld,
                            version: string, image: string)
    requires Rebuild(versions, |versions|, m, previous, w).ok && Uses(versions, version, image, w.repository)
    ensures exists x :: Reports(Rebuild(versions, |versions|, m, previous, w).statuses, version, x) && x.image == image
  {
    var r := Rebuild(versions, |versions|, m, previous, w);
    RebuildAt(versions, |versions|, m, previous, w);
    var i, j :| 0 <= i < |versions| && versions[i].version == version && !versions[i].IsInactive() &&
                0 <= j < |versions[i].images| && StripTags(versions[i].images, w.repository).images[j].image == image;
    assert BuiltFrom(versions[i], r.versions[i], r.statuses[i], i, m, previous, w);
    var images := r.versions[i].images;
    ImageStatusAt(images, |images|, version, i, previous, w);
    assert r.statuses[i] in r.statuses && r.statuses[i].images[j] in r.statuses[i].images;
    assert Reports(r.statuses, version, r.statuses[i].images[j]);
  }

  /** One reconciliation reports the digest of the first status for the image in every entry for the version and the
      image, and keeps it recorded as long as the spec has the image. */
  lemma DigestReportedAgain(versions: seq<StackVersion>, m: UseMap, previous: seq<VersionStatus>, w: StackWorld,
                            version: string, image: string, d: ImageDigest)
    requires Rebuild(versions, |versions|, m, previous, w).ok && IsRecorded(previous, version, image, d)
    ensures var now := Rebuild(versions, |versions|, m, previous, w).statuses;
      && (forall x :: Reports(now, version, x) && x.image == image ==> x.digest == d)
      && (Uses(versions, version, image, w.repository) ==> IsRecorded(now, version, image, d))
  {
    var r := Rebuild(versions, |versions|, m, previous, w);
    RebuildAt(versions, |versions|, m, previous, w);
    forall x | Reports(r.statuses, version, x) && x.image == image
      ensures x.digest == d
    {
      var v :| v in r.statuses && v.version == version && x in v.images;
      var i :| 0 <= i < |r.statuses| && r.statuses[i] == v;
      assert BuiltFrom(versions[i], r.versions[i], v, i, m, previous, w);
      assert versions[i].version == v.version;
      RecordedDigestInEntry(versions[i], r.versions[i], v, i, m, previous, w, image, d);
    }
    if Uses(versions, version, image, w.repository) {
      UsedImageIsReported(versions, m, previous, w, version, image);
    }
    FindDigestIsReported(r.statuses, version, image);
  }

  /** One reconciliation of a run: the spec at that time, the use map the activation gave, the world. */
  datatype Visit = Visit(versions: seq<StackVersion>, m: UseMap, w: StackWorld)

  /** The status after a visit; a visit that meets an image that does not parse leaves it alone. */
  function AfterVisit(previous: seq<VersionStatus>, v: Visit): seq<VersionStatus> {
    var r := Rebuild(v.versions, |v.versions|, v.m, previous, v.w);
    if r.ok then r.statuses else previous
  }

  function AfterVisits(previous: seq<VersionStatus>, visits: seq<Visit>): seq<VersionStatus> {
    if visits == [] then previous
    else AfterVisit(AfterVisits(previous, visits[..|visits| - 1]), visits[|visits| - 1])
  }

  /** Once the first status for an image has it, an activation digest is reported for as long as the version stays
      active with that image, whatever the registry answers later. */
  lemma {:induction false} DigestIsForever(previous: seq<VersionStatus>, visits: seq<Visit>, version: string,
                                           image: string, d: ImageDigest)
    requires IsRecorded(previous, version, image, d)
    requires forall v :: v in visits ==> Uses(v.versions, version, image, v.w.repository)
    ensures IsRecorded(AfterVisits(previous, visits), version, image, d)
  {
    if visits != [] {
      var n := |visits| - 1;
      DigestIsForever(previous, visits[..n], version, image, d);
      var v := visits[n];
      var before := AfterVisits(previous, visits[..n]);
      if Rebuild(v.versions, |v.versions|, v.m, before, v.w).ok {
        DigestReportedAgain(v.versions, v.m, before, v.w, version, image, d);
      }
    }
  }

  // ---------------------------------------------------------------- which reported digests stay

  ghost predicate ReportsDigest(versions: seq<VersionStatus>, version: string, image: string, d: ImageDigest) {
    exists x :: Reports(versions, version, x) && x.image == image && x.digest == d
  }

  ghost predicate AllUse(visits: seq<Visit>, version: string, image: string) {
    forall v :: v in visits ==> Uses(v.versions, version, image, v.w.repository)
  }

  function AskedFor(visit: Visit, lookup: (nat, nat) -> Lookup): Visit {
    visit.(w := visit.w.(lookup := lookup))
  }

  /** A registry that always answers the same digest. */
  function Always(hex: string): (nat, nat) -> Lookup {
    (i, j) => Digest(hex)
  }

  predicate Completes(previous: seq<VersionStatus>, visit: Visit) {
    Rebuild(visit.versions, |visit.versions|, visit.m, previous, visit.w).ok
  }

  lemma RecordedIsReported(previous: seq<VersionStatus>, version: string, image: string, d: ImageDigest)
    requires IsRecorded(previous, version, image, d)
    ensures ReportsDigest(previous, version, image, d)
  {
    FindDigestIsReported(previous, version, image);
  }

  /** What a pass reports when the registry always gives the same answer. */
  lemma AnswerIsReported(previous: seq<VersionStatus>, visit: Visit, version: string, x: ImageStatus, hex: string)
    requires Reports(AfterVisit(previous, AskedFor(visit, Always(hex))), version, x)
    requires Completes(previous, AskedFor(visit, Always(hex)))
    ensures x.digest == StatusDigest(previous, version, x.image, Digest(hex))
  {
    var v := AskedFor(visit, Always(hex));
    var r := Rebuild(v.versions, |v.versions|, v.m, previous, v.w);
    RebuildAt(v.versions, |v.versions|, v.m, previous, v.w);
    var s :| s in r.statuses && s.version == version && x in s.images;
    var i :| 0 <= i < |r.statuses| && r.statuses[i] == s;
    assert BuiltFrom(v.versions[i], r.versions[i], s, i, v.m, previous, v.w);
    ImageStatusAt(r.versions[i].images, |r.versions[i].images|, version, i, previous, v.w);
  }

  /** A digest that is not the one recorded is gone after any completed pass in which the registry answers another. */
  lemma AnotherReplacesIt(previous: seq<VersionStatus>, visit: Visit, version: string, image: string, d: ImageDigest)
    requires !IsRecorded(previous, version, image, d) && d.activation != ""
    requires Completes(previous, AskedFor(visit, Always(d.activation + "0")))
    ensures var after := AfterVisit(previous, AskedFor(visit, Always(d.activation + "0")));
      !ReportsDigest(after, version, image, d)
  {
    var hex := d.activation + "0";
    var after := AfterVisit(previous, AskedFor(visit, Always(hex)));
    forall x | Reports(after, version, x) && x.image == image ensures x.digest != d {
      AnswerIsReported(previous, visit, version, x, hex);
    }
  }

  lemma {:induction false} SameParser(versions: seq<StackVersion>, n: nat, m: UseMap, previous: seq<VersionStatus>,
                                      w: StackWorld, w': StackWorld)
    requires n <= |versions| && w.repository == w'.repository
    ensures var r, r' := Rebuild(versions, n, m, previous, w), Rebuild(versions, n, m, previous, w');
      r.ok == r'.ok && r.versions == r'.versions
  {
    if n != 0 {
      SameParser(versions, n - 1, m, previous, w, w');
    }
  }

  /** One pass: a reported digest of an image that the spec still uses is reported again, whatever the registry answers,
      exactly if the first status for the image has it. */
  lemma ReportedAgainExactly(previous: seq<VersionStatus>, visit: Visit, version: string, x: ImageStatus)
    requires Reports(previous, version, x) && x.digest.activation != ""
    requires Completes(previous, visit) && Uses(visit.versions, version, x.image, visit.w.repository)
    ensures FindDigest(previous, version, x.image) == Some(x.digest) <==>
      forall lookup :: ReportsDigest(AfterVisit(previous, AskedFor(visit, lookup)), version, x.image, x.digest)
  {
    if IsRecorded(previous, version, x.image, x.digest) {
      forall lookup ensures ReportsDigest(AfterVisit(previous, AskedFor(visit, lookup)), version, x.image, x.digest) {
        var v := AskedFor(visit, lookup);
        SameParser(v.versions, |v.versions|, v.m, previous, visit.w, v.w);
        DigestReportedAgain(v.versions, v.m, previous, v.w, version, x.image, x.digest);
        RecordedIsReported(AfterVisit(previous, v), version, x.image, x.digest);
      }
    } else {
      var v := AskedFor(visit, Always(x.digest.activation + "0"));
      SameParser(v.versions, |v.versions|, v.m, previous, visit.w, v.w);
      AnotherReplacesIt(previous, visit, version, x.image, x.digest);
    }
  }

  /** A visit of a spec with just this image. */
  function JustThis(version: string, image: string): Visit {
    Visit([StackVersion(version, "", [], [Image("", image)], false, false, "", "")], map[],
          StackWorld(World((k, n) => Fetched([]), (k, i, j) => Applied), i => Some(i), (i, j) => Unavailable("")))
  }

  lemma JustThisUses(previous: seq<VersionStatus>, version: string, image: string, lookup: (nat, nat) -> Lookup)
    ensures var v := AskedFor(JustThis(version, image), lookup);
      Completes(previous, v) && AllUse([v], version, image)
  {
    var v := AskedFor(JustThis(version, image), lookup);
    assert StripTags(v.versions[0].images, v.w.repository) == Stripped(v.versions[0].images, true);
    assert Uses(v.versions, version, image, v.w.repository);
  }

  /** All passes: a reported digest is reported for ever, by every run of passes whose specs use the image, exactly if
      the first status for the image has it. */
  lemma ReportedForeverExactly(previous: seq<VersionStatus>, version: string, x: ImageStatus)
    requires Reports(previous, version, x) && x.digest.activation != ""
    ensures FindDigest(previous, version, x.image) == Some(x.digest) <==>
      forall visits :: AllUse(visits, version, x.image) ==>
        ReportsDigest(AfterVisits(previous, visits), version, x.image, x.digest)
  {
    if IsRecorded(previous, version, x.image, x.digest) {
      forall visits | AllUse(visits, version, x.image)
        ensures ReportsDigest(AfterVisits(previous, visits), version, x.image, x.digest)
      {
        DigestIsForever(previous, visits, version, x.image, x.digest);
        RecordedIsReported(AfterVisits(previous, visits), version, x.image, x.digest);
      }
    } else {
      var lookup := Always(x.digest.activation + "0");
      var v := AskedFor(JustThis(version, x.image), lookup);
      JustThisUses(previous, version, x.image, lookup);
      AnotherReplacesIt(previous, JustThis(version, x.image), version, x.image, x.digest);
      assert [v][..0] == [] && AfterVisits(previous, [v]) == AfterVisit(previous, v);
    }
  }

  // ---------------------------------------------------------------- a digest that does not stay

  /** A version lists an image under two ids; the registry fails for the first and answers a digest for the second. */
  function HalfAnswered(image: string, d: string): Visit {
    Visit([StackVersion("1.0.0", "", [], [Image("a", image), Image("b", image)], false, false, "", "")], map[],
          StackWorld(World((k, n) => Fetched([]), (k, i, j) => Applied), i => Some(i),
                     (i, j) => if j == 0 then Unavailable("down") else Digest(d)))
  }

  lemma HalfAnsweredImages(previous: seq<VersionStatus>, image: string, visit: Visit)
    requires visit.versions == HalfAnswered(image, "").versions
    requires visit.w.repository == HalfAnswered(image, "").w.repository
    ensures Completes(previous, visit) && |AfterVisit(previous, visit)| == 1
    ensures var s := AfterVisit(previous, visit)[0];
      && s.version == "1.0.0"
      && s.images == [ImageStatus("a", image, StatusDigest(previous, "1.0.0", image, visit.w.lookup(0, 0))),
                      ImageStatus("b", image, StatusDigest(previous, "1.0.0", image, visit.w.lookup(0, 1)))]
  {
    var versions := visit.versions;
    var images := versions[0].images;
    assert images[1..][1..] == [] && images[1..][0] == images[1];
    assert StripTags(images[1..], visit.w.repository) == Stripped(images[1..], true);
    assert StripTags(images, visit.w.repository) == Stripped(images, true);
    assert Rebuild(versions, 0, visit.m, previous, visit.w) == Rebuilt(versions, [], true);
    RebuildAt(versions, 1, visit.m, previous, visit.w);
    var r := Rebuild(versions, 1, visit.m, previous, visit.w);
    assert BuiltFrom(versions[0], r.versions[0], r.statuses[0], 0, visit.m, previous, visit.w);
    ImageStatusAt(images, 2, "1.0.0", 0, previous, visit.w);
  }

  /** The digest that such a pass reports is replaced by the next answer of the registry, since the controller stops at
      the first status for the image, which has none. */
  lemma UnrecordedIsReplaced(image: string, d: string, e: string)
    requires d != "" && e != "" && d != e
    ensures var first := AfterVisits([], [HalfAnswered(image, d)]);
      var later := AskedFor(HalfAnswered(image, d), Always(e));
      && ReportsDigest(first, "1.0.0", image, ImageDigest(d, ""))
      && !ReportsDigest(AfterVisit(first, later), "1.0.0", image, ImageDigest(d, ""))
      && ReportsDigest(AfterVisit(first, later), "1.0.0", image, ImageDigest(e, ""))
  {
    var visit := HalfAnswered(image, d);
    var later := AskedFor(visit, Always(e));
    assert [visit][..0] == [] && AfterVisits([], [visit]) == AfterVisit([], visit);
    var first := AfterVisit([], visit);
    HalfAnsweredImages([], image, visit);
    assert Reports(first, "1.0.0", first[0].images[1]) && first[0].images[1].digest == ImageDigest(d, "");
    HalfAnsweredImages(first, image, later);
    FirstHasNone(first, image, Digest(e));
    var after := AfterVisit(first, later);
    assert after[0].images ==
      [ImageStatus("a", image, ImageDigest(e, "")), ImageStatus("b", image, ImageDigest(e, ""))];
    assert Reports(after, "1.0.0", after[0].images[0]);
    OnlyReports(after, image, ImageDigest(e, ""), ImageDigest(d, ""));
  }

  lemma FirstHasNone(versions: seq<VersionStatus>, image: string, answer: Lookup)
    requires |versions| == 1 && versions[0].version == "1.0.0" && versions[0].images != []
    requires versions[0].images[0].image == image && versions[0].images[0].digest.activation == ""
    ensures StatusDigest(versions, "1.0.0", image, answer) == LookedUp(answer)
  {}

  lemma OnlyReports(versions: seq<VersionStatus>, image: string, d: ImageDigest, other: ImageDigest)
    requires |versions| == 1 && d != other && forall x :: x in versions[0].images ==> x.digest == d
    ensures !ReportsDigest(versions, "1.0.0", image, other)
  {}

  /** No image status has both a digest and an error message. */
  predicate Clean(versions: seq<VersionStatus>) {
    forall v :: v in versions ==> CleanEntry(v)
  }

  predicate CleanEntry(s: VersionStatus) {
    forall x :: x in s.images ==> x.digest.activation == "" || x.digest.message == ""
  }

  lemma BuiltEntryIsClean(v: StackVersion, v': StackVersion, s: VersionStatus, i: nat, m: UseMap,
                          previous: seq<VersionStatus>, w: StackWorld)
    requires Clean(previous) && BuiltFrom(v, v', s, i, m, previous, w)
    ensures CleanEntry(s)
  {
    if !v.IsInactive() {
      ImageStatusAt(v'.images, |v'.images|, v.version, i, previous, w);
      forall x | x in s.images
        ensures x.digest.activation == "" || x.digest.message == ""
      {
        RecordedIsClean(previous, v.version, x.image);
      }
    }
  }

  lemma VisitStaysClean(previous: seq<VersionStatus>, visit: Visit)
    requires Clean(previous)
    ensures Clean(AfterVisit(previous, visit))
  {
    var r := Rebuild(visit.versions, |visit.versions|, visit.m, previous, visit.w);
    if r.ok {
      RebuildAt(visit.versions, |visit.versions|, visit.m, previous, visit.w);
      forall s | s in r.statuses
        ensures CleanEntry(s)
      {
        var i :| 0 <= i < |r.statuses| && r.statuses[i] == s;
        BuiltEntryIsClean(visit.versions[i], r.versions[i], s, i, visit.m, previous, visit.w);
      }
    }
  }

  lemma RecordedIsClean(previous: seq<VersionStatus>, version: string, image: string)
    requires Clean(previous)
    ensures var d := FindDigest(previous, version, image);
      d.Some? ==> d.value.activation == "" || d.value.message == ""
  {
    FindDigestIsReported(previous, version, image);
  }

  lemma {:induction false} DigestOrMessage(previous: seq<VersionStatus>, visits: seq<Visit>)
    requires Clean(previous)
    ensures Clean(AfterVisits(previous, visits))
  {
    if visits != [] {
      var n := |visits| - 1;
      DigestOrMessage(previous, visits[..n]);
      VisitStaysClean(AfterVisits(previous, visits[..n]), visits[n]);
    }
  }
}
