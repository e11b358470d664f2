/** A stack index after it was read: stacks without an image are dropped from the array that is being ranged over. */
module StackIndex {
  import opened Component

  datatype Stack = Stack(id: string, name: string, version: string, image: string, images: seq<Image>,
                         pipelines: seq<PipelineSpec>)

  datatype Trigger = Trigger(id: string, url: string, sha256: string)

  /** The stack names an image, by itself or in its list. A list, even of empty images, hides the single image. */
  predicate NamesImage(s: Stack) {
    if s.images == [] then s.image != "" else exists i :: 0 <= i < |s.images| && s.images[i].image != ""
  }

  /** Pipelines of the caller replace the stack's own; a single image becomes a list. */
  function Completed(s: Stack, pipelines: seq<PipelineSpec>): Stack {
    s.(pipelines := if pipelines == [] then s.pipelines else pipelines,
       images := if s.images == [] then [Image(s.name, s.image)] else s.images)
  }

  function Processed(stacks: seq<Stack>, pipelines: seq<PipelineSpec>): (r: seq<Stack>)
    ensures |r| <= |stacks|
  {
    if stacks == [] then []
    else
      var before := Processed(stacks[..|stacks| - 1], pipelines);
      var last := stacks[|stacks| - 1];
      if NamesImage(last) then before + [Completed(last, pipelines)] else before
  }

  lemma ProcessedStep(stacks: seq<Stack>, i: nat, pipelines: seq<PipelineSpec>)
    requires i < |stacks|
    ensures Processed(stacks[..i + 1], pipelines) ==
      Processed(stacks[..i], pipelines) + if NamesImage(stacks[i]) then [Completed(stacks[i], pipelines)] else []
  {
    assert stacks[..i + 1][..i] == stacks[..i];
  }

  /** The stacks are a prefix of the backing array. */
  class Index {
    var backing: array<Stack>
    var count: nat
    var triggers: seq<Trigger>

    ghost predicate Valid()
      reads this
    {
      count <= backing.Length
    }

    ghost function Stacks(): seq<Stack>
      reads this, backing
      requires Valid()
    {
      backing[..count]
    }

    constructor (backing: array<Stack>, triggers: seq<Trigger>)
      ensures Valid() && this.backing == backing && count == backing.Length && this.triggers == triggers
    {
      this.backing, this.count, this.triggers := backing, backing.Length, triggers;
    }

    /** Compacts the stacks in place. A stack is written over one that was read before. */
    method ProcessPostRead(pipelines: seq<PipelineSpec>, triggers: seq<Trigger>)
      requires Valid()
      modifies this, backing
      ensures Valid() && backing == old(backing)
      ensures Stacks() == Processed(old(Stacks()), pipelines)
      ensures forall k :: count <= k < backing.Length ==> backing[k] == old(backing[..])[k]
      ensures this.triggers == if old(this.triggers) == [] then triggers else old(this.triggers)
    {
      count := Compact(pipelines);
      if |this.triggers| == 0 {
        this.triggers := triggers;
      }
    }

    method Compact(pipelines: seq<PipelineSpec>) returns (tmpstack: nat)
      requires Valid()
      modifies backing
      ensures tmpstack <= count && backing[..tmpstack] == Processed(old(Stacks()), pipelines)
      ensures forall k :: tmpstack <= k < backing.Length ==> backing[k] == old(backing[..])[k]
    {
      ghost var before, was := Stacks(), backing[..];
      tmpstack := 0;
      for i := 0 to count
        invariant tmpstack <= i && CompactedUpTo(before, was, backing[..], i, tmpstack, pipelines)
      {
        var kept := Complete(backing[i], pipelines);
        ghost var now := backing[..];
        CompactedNext(before, was, now, i, tmpstack, pipelines);
        if kept.Some? {
          backing[tmpstack] := kept.value;
          assert backing[..] == now[tmpstack := kept.value];
          tmpstack := tmpstack + 1;
        }
      }
      assert before[..|before|] == before && backing[..][..tmpstack] == backing[..tmpstack];
    }
  }

  /** The array when the first i of the stacks are compacted into its first n places; the rest is as it was. */
  predicate CompactedUpTo(before: seq<Stack>, was: seq<Stack>, now: seq<Stack>, i: nat, n: nat,
                          pipelines: seq<PipelineSpec>)
  {
    && n <= i <= |before| <= |was| == |now| && was[..|before|] == before
    && now[..n] == Processed(before[..i], pipelines) && now[n..] == was[n..]
  }

  lemma CompactedNext(before: seq<Stack>, was: seq<Stack>, now: seq<Stack>, i: nat, n: nat,
                      pipelines: seq<PipelineSpec>)
    requires CompactedUpTo(before, was, now, i, n, pipelines) && i < |before|
    ensures now[i] == before[i]
    ensures if NamesImage(now[i])
            then CompactedUpTo(before, was, now[n := Completed(now[i], pipelines)], i + 1, n + 1, pipelines)
            else CompactedUpTo(before, was, now, i + 1, n, pipelines)
  {
    assert now[i] == now[n..][i - n] == was[n..][i - n] == was[..|before|][i];
    ProcessedStep(before, i, pipelines);
    Overwritten(was, now, n, Completed(now[i], pipelines));
  }

  lemma Overwritten(was: seq<Stack>, now: seq<Stack>, n: nat, s: Stack)
    requires n < |now| == |was| && now[n..] == was[n..]
    ensures now[n := s][..n + 1] == now[..n] + [s] && now[n := s][n + 1..] == was[n + 1..]
  {
    assert now[n + 1..] == now[n..][1..] && was[n + 1..] == was[n..][1..];
  }

  /** One round of the loop: the stack to keep, if it is kept. */
  method Complete(s: Stack, pipelines: seq<PipelineSpec>) returns (kept: Option<Stack>)
    ensures kept == if NamesImage(s) then Some(Completed(s, pipelines)) else None
  {
    var stack := s;
    if |pipelines| != 0 {
      stack := stack.(pipelines := pipelines);
    }
    if |stack.images| == 0 {
      if |stack.image| == 0 {
        return None;
      }
      stack := stack.(images := [Image(stack.name, stack.image)]);
      return Some(stack);
    }
    var imageFound := FindImage(stack.images);
    return if imageFound then Some(stack) else None;
  }

  method FindImage(images: seq<Image>) returns (imageFound: bool)
    ensures imageFound <==> exists i :: 0 <= i < |images| && images[i].image != ""
  {
    imageFound := false;
    for i := 0 to |images|
      invariant imageFound <==> exists k :: 0 <= k < i && images[k].image != ""
    {
      if |images[i].image| != 0 {
        imageFound := true;
      }
    }
  }

  // ---------------------------------------------------------------- which stacks survive

  /** The positions of the stacks that name an image. */
  function Positions(stacks: seq<Stack>): (r: seq<nat>)
    ensures forall k :: 0 <= k < |r| ==> r[k] < |stacks|
  {
    if stacks == [] then []
    else
      var n := |stacks| - 1;
      Positions(stacks[..n]) + if NamesImage(stacks[n]) then [n] else []
  }

  lemma {:induction false} PositionsInOrder(stacks: seq<Stack>)
    ensures var p := Positions(stacks);
      && (forall k, l :: 0 <= k < l < |p| ==> p[k] < p[l])
      && (forall i :: i in p <==> 0 <= i < |stacks| && NamesImage(stacks[i]))
  {
    if stacks != [] {
      var n := |stacks| - 1;
      PositionsInOrder(stacks[..n]);
      assert stacks == stacks[..n] + [stacks[n]];
    }
  }

  lemma {:induction false} SurvivorsAtPositions(stacks: seq<Stack>, pipelines: seq<PipelineSpec>)
    ensures var r, p := Processed(stacks, pipelines), Positions(stacks);
      |r| == |p| && forall k :: 0 <= k < |r| ==> r[k] == Completed(stacks[p[k]], pipelines)
  {
    if stacks != [] {
      var n := |stacks| - 1;
      SurvivorsAtPositions(stacks[..n], pipelines);
      assert stacks == stacks[..n] + [stacks[n]];
    }
  }

  /** In their order, exactly the stacks that name an image survive, each completed. */
  lemma SurvivorsAt(stacks: seq<Stack>, pipelines: seq<PipelineSpec>)
    ensures var r, p := Processed(stacks, pipelines), Positions(stacks);
      && |r| == |p| && (forall k :: 0 <= k < |r| ==> r[k] == Completed(stacks[p[k]], pipelines))
      && (forall k, l :: 0 <= k < l < |p| ==> p[k] < p[l])
      && (forall i :: i in p <==> 0 <= i < |stacks| && NamesImage(stacks[i]))
  {
    PositionsInOrder(stacks);
    SurvivorsAtPositions(stacks, pipelines);
  }

  predicate IsComplete(s: Stack, pipelines: seq<PipelineSpec>) {
    NamesImage(s) && Completed(s, pipelines) == s
  }

  /** Every survivor has an image that is not empty, and the caller's pipelines if there are any. */
  lemma SurvivorsHaveImages(stacks: seq<Stack>, pipelines: seq<PipelineSpec>, k: nat)
    requires k < |Processed(stacks, pipelines)|
    ensures var s := Processed(stacks, pipelines)[k];
      && (exists i :: 0 <= i < |s.images| && s.images[i].image != "")
      && (pipelines != [] ==> s.pipelines == pipelines)
      && IsComplete(s, pipelines)
  {
    SurvivorsAt(stacks, pipelines);
    var s := Processed(stacks, pipelines)[k];
    var p := Positions(stacks)[k];
    assert p in Positions(stacks) && NamesImage(stacks[p]);
    if stacks[p].images == [] {
      assert s.images[0].image != "";
    }
  }

  lemma {:induction false} AllKept(stacks: seq<Stack>, pipelines: seq<PipelineSpec>)
    requires forall k :: 0 <= k < |stacks| ==> IsComplete(stacks[k], pipelines)
    ensures Processed(stacks, pipelines) == stacks
  {
    if stacks != [] {
      var n := |stacks| - 1;
      AllKept(stacks[..n], pipelines);
      assert IsComplete(stacks[n], pipelines);
      assert Processed(stacks, pipelines) == Processed(stacks[..n], pipelines) + [stacks[n]];
      assert stacks == stacks[..n] + [stacks[n]];
    }
  }

  /** A processed index is not changed by processing it again. */
  lemma ProcessedTwice(stacks: seq<Stack>, pipelines: seq<PipelineSpec>)
    ensures Processed(Processed(stacks, pipelines), pipelines) == Processed(stacks, pipelines)
  {
    var r := Processed(stacks, pipelines);
    forall k | 0 <= k < |r| ensures IsComplete(r[k], pipelines) {
      SurvivorsHaveImages(stacks, pipelines, k);
    }
    AllKept(r, pipelines);
  }

  // ---------------------------------------------------------------- what a survivor says

  /** The stack as it is written back: the pipelines of the caller, if there are any, and a list of images, which for a
      stack with a single image holds just that one, under the name of the stack. */
  predicate Says(r: Stack, s: Stack, pipelines: seq<PipelineSpec>) {
    && r.id == s.id && r.name == s.name && r.version == s.version && r.image == s.image
    && r.pipelines == (if |pipelines| > 0 then pipelines else s.pipelines)
    && (if |s.images| > 0 then r.images == s.images
        else |r.images| == 1 && r.images[0].id == s.name && r.images[0].image == s.image)
  }

  /** The position holds a stack with an image: a nonempty one of its list, or without a list its single one. */
  predicate HasImage(s: Stack) {
    (|s.images| == 0 && |s.image| > 0) || exists i :: 0 <= i < |s.images| && |s.images[i].image| > 0
  }

  lemma SaysExactly(s: Stack, pipelines: seq<PipelineSpec>)
    ensures NamesImage(s) <==> HasImage(s)
    ensures Says(Completed(s, pipelines), s, pipelines)
  {}

  /** The processed index in full: at strictly increasing positions, which are those of the stacks with an image, each
      stack is written back as it says. */
  lemma ProcessedInFull(stacks: seq<Stack>, pipelines: seq<PipelineSpec>)
    ensures var r, p := Processed(stacks, pipelines), Positions(stacks);
      && |r| == |p| && (forall k, l :: 0 <= k < l < |p| ==> p[k] < p[l])
      && (forall i :: i in p <==> 0 <= i < |stacks| && HasImage(stacks[i]))
      && (forall k :: 0 <= k < |p| ==> Says(r[k], stacks[p[k]], pipelines))
  {
    PositionsInOrder(stacks);
    SurvivorsAtPositions(stacks, pipelines);
    var r, p := Processed(stacks, pipelines), Positions(stacks);
    forall i | 0 <= i < |stacks| ensures NamesImage(stacks[i]) <==> HasImage(stacks[i]) {
      SaysExactly(stacks[i], pipelines);
    }
    forall k | 0 <= k < |p| ensures Says(r[k], stacks[p[k]], pipelines) {
      SaysExactly(stacks[p[k]], pipelines);
    }
  }
}
