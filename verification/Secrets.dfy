/** The secret for a host: annotations are ranged over in no particular order, and still always the same secret is
    chosen. */
module Secrets {
  import opened Component

  datatype Secret = Secret(name: string, annotations: map<string, string>)

  // ---------------------------------------------------------------- the order of strings

  predicate Less(a: string, b: string) {
    if b == "" then false
    else if a == "" then true
    else a[0] < b[0] || (a[0] == b[0] && Less(a[1..], b[1..]))
  }

  lemma {:induction false} LessIsTotal(a: string, b: string)
    ensures Less(a, b) || a == b || Less(b, a)
    ensures !(Less(a, b) && Less(b, a)) && (Less(a, b) ==> a != b)
  {
    if a != "" && b != "" {
      LessIsTotal(a[1..], b[1..]);
      assert a == [a[0]] + a[1..] && b == [b[0]] + b[1..];
    }
  }

  lemma {:induction false} LessIsTransitive(a: string, b: string, c: string)
    requires Less(a, b) && Less(b, c)
    ensures Less(a, c)
  {
    if a != "" && b[0] == a[0] == c[0] {
      LessIsTransitive(a[1..], b[1..], c[1..]);
    }
  }

  /** Strings are compared at the first character in which they differ; a proper beginning comes first. */
  lemma {:induction false} LessExactly(a: string, b: string, n: nat)
    requires n <= |a| && n <= |b| && forall i :: 0 <= i < n ==> a[i] == b[i]
    ensures n < |a| && n < |b| && a[n] != b[n] ==> (Less(a, b) <==> a[n] < b[n])
    ensures n == |a| || n == |b| ==> (Less(a, b) <==> |a| < |b|)
  {
    if n > 0 {
      LessExactly(a[1..], b[1..], n - 1);
    }
  }

  lemma PrefixExactly(s: string, prefix: string)
    ensures HasPrefix(s, prefix) <==> |prefix| <= |s| && forall i :: 0 <= i < |prefix| ==> s[i] == prefix[i]
  {
    if |prefix| <= |s| && forall i :: 0 <= i < |prefix| ==> s[i] == prefix[i] {
      assert s[..|prefix|] == prefix;
    }
  }

  predicate HasPrefix(s: string, prefix: string) {
    |prefix| <= |s| && s[..|prefix|] == prefix
  }

  // ---------------------------------------------------------------- what is looked for

  /** The host of an annotation value that is an http or https URL. */
  type Hosts = string -> Option<string>

  datatype Filter = Filter(host: string, prefix: string)

  predicate KeyMatch(s: Secret, key: string, f: Filter, hostOf: Hosts) {
    key in s.annotations && hostOf(s.annotations[key]) == Some(f.host) && HasPrefix(key, f.prefix)
  }

  predicate HostMatch(s: Secret, key: string, f: Filter, hostOf: Hosts) {
    key in s.annotations && hostOf(s.annotations[key]) == Some(f.host) && !HasPrefix(key, f.prefix)
  }

  /** The first listed secret that has the least matching key. */
  predicate IsLeast(secrets: seq<Secret>, i: nat, key: string, f: Filter, hostOf: Hosts) {
    && i < |secrets| && KeyMatch(secrets[i], key, f, hostOf)
    && forall j, other ::
      0 <= j < |secrets| && other in secrets[j].annotations && KeyMatch(secrets[j], other, f, hostOf) ==>
      Less(key, other) || (key == other && i <= j)
  }

  predicate NoKeyMatch(secrets: seq<Secret>, f: Filter, hostOf: Hosts) {
    forall j, other :: 0 <= j < |secrets| && other in secrets[j].annotations ==> !KeyMatch(secrets[j], other, f, hostOf)
  }

  predicate HasHost(s: Secret, f: Filter, hostOf: Hosts) {
    exists key :: key in s.annotations && HostMatch(s, key, f, hostOf)
  }

  /** The first listed secret for the host. */
  predicate IsFirst(secrets: seq<Secret>, i: nat, f: Filter, hostOf: Hosts) {
    i < |secrets| && HasHost(secrets[i], f, hostOf) && forall j :: 0 <= j < i ==> !HasHost(secrets[j], f, hostOf)
  }

  predicate NoHost(secrets: seq<Secret>, f: Filter, hostOf: Hosts) {
    forall j :: 0 <= j < |secrets| ==> !HasHost(secrets[j], f, hostOf)
  }

  /** The secret with the least matching key, or else the first for the host, or else none. */
  ghost predicate IsChosen(secrets: seq<Secret>, chosen: Option<Secret>, f: Filter, hostOf: Hosts) {
    if !NoKeyMatch(secrets, f, hostOf) then
      chosen.Some? && exists i: nat, key: string :: IsLeast(secrets, i, key, f, hostOf) && chosen.value == secrets[i]
    else if !NoHost(secrets, f, hostOf) then
      chosen.Some? && exists i: nat :: IsFirst(secrets, i, f, hostOf) && chosen.value == secrets[i]
    else chosen.None?
  }

  // ---------------------------------------------------------------- the search

  /** A matching key and the secret it is on. */
  datatype Candidate = Candidate(key: string, index: nat)

  /** No key is remembered as the empty key. */
  function KeyOf(best: Option<Candidate>): string {
    if best.Some? then best.value.key else ""
  }

  function Better(best: Option<Candidate>, c: Candidate): Option<Candidate> {
    if KeyOf(best) == "" || Less(c.key, KeyOf(best)) then Some(c) else best
  }

  /** The best key after visiting matching annotations in this order. */
  function Visit(order: seq<Candidate>): Option<Candidate> {
    if order == [] then None else Better(Visit(order[..|order| - 1]), order[|order| - 1])
  }

  predicate SeenUpTo(c: Candidate, n: nat, keys: set<string>) {
    c.index < n || (c.index == n && c.key in keys)
  }

  /** The order visits the matching annotations of the first n secrets, secret by secret, and those of the next one
      that are among the given keys. */
  ghost predicate IsVisit(order: seq<Candidate>, secrets: seq<Secret>, n: nat, keys: set<string>, f: Filter,
                          hostOf: Hosts)
  {
    && (forall c :: c in order <==>
          c.index < |secrets| && SeenUpTo(c, n, keys) && KeyMatch(secrets[c.index], c.key, f, hostOf))
    && (forall i, j :: 0 <= i < j < |order| ==> order[i] != order[j] && order[i].index <= order[j].index)
  }

  /** A visit of all annotations of all secrets. */
  ghost predicate IsFullVisit(order: seq<Candidate>, secrets: seq<Secret>, f: Filter, hostOf: Hosts) {
    IsVisit(order, secrets, |secrets|, {}, f, hostOf)
  }

  /** What the search returns: the secret of the best key, or else the first for the host. */
  ghost predicate IsResult(secrets: seq<Secret>, order: seq<Candidate>, chosen: Option<Secret>, f: Filter,
                           hostOf: Hosts) {
    match Visit(order)
    case Some(c) => c.index < |secrets| && chosen == Some(secrets[c.index])
    case None =>
      if NoHost(secrets, f, hostOf) then chosen.None?
      else chosen.Some? && exists i: nat :: IsFirst(secrets, i, f, hostOf) && chosen.value == secrets[i]
  }

  lemma VisitNext(order: seq<Candidate>, secrets: seq<Secret>, n: nat, keys: set<string>, key: string, f: Filter,
                  hostOf: Hosts)
    requires IsVisit(order, secrets, n, keys, f, hostOf) && n < |secrets| && key !in keys
    ensures var next := if KeyMatch(secrets[n], key, f, hostOf) then order + [Candidate(key, n)] else order;
      && IsVisit(next, secrets, n, keys + {key}, f, hostOf)
      && Visit(next) ==
         if KeyMatch(secrets[n], key, f, hostOf) then Better(Visit(order), Candidate(key, n)) else Visit(order)
  {
    assert (order + [Candidate(key, n)])[..|order|] == order;
  }

  method VisitAnnotation(s: Secret, n: nat, key: string, f: Filter, hostOf: Hosts, best: Option<Candidate>,
                         first: Option<nat>)
    returns (newBest: Option<Candidate>, newFirst: Option<nat>)
    requires key in s.annotations
    ensures newBest == if KeyMatch(s, key, f, hostOf) then Better(best, Candidate(key, n)) else best
    ensures newFirst == if first.None? && HostMatch(s, key, f, hostOf) then Some(n) else first
  {
    newBest, newFirst := best, first;
    var kabKey := KeyOf(best);
    if hostOf(s.annotations[key]) == Some(f.host) {
      if HasPrefix(key, f.prefix) {
        if |kabKey| == 0 {
          newBest := Some(Candidate(key, n));
        } else if Less(key, kabKey) {
          newBest := Some(Candidate(key, n));
        }
      } else if newFirst.None? {
        newFirst := Some(n);
      }
    }
  }

  /** Ranges over the annotations of one secret. */
  method VisitSecret(secrets: seq<Secret>, n: nat, f: Filter, hostOf: Hosts, best: Option<Candidate>,
                     first: Option<nat>, ghost before: seq<Candidate>)
    returns (newBest: Option<Candidate>, newFirst: Option<nat>, ghost order: seq<Candidate>)
    requires n < |secrets| && IsVisit(before, secrets, n, {}, f, hostOf) && best == Visit(before)
    ensures IsVisit(order, secrets, n + 1, {}, f, hostOf) && newBest == Visit(order)
    ensures newFirst == if first.None? && HasHost(secrets[n], f, hostOf) then Some(n) else first
  {
    newBest, newFirst, order := best, first, before;
    var todo := secrets[n].annotations.Keys;
    ghost var visited: set<string> := {};
    while todo != {}
      invariant todo !! visited && todo + visited == secrets[n].annotations.Keys
      invariant IsVisit(order, secrets, n, visited, f, hostOf) && newBest == Visit(order)
      invariant newFirst == if first.None? && SeesHost(secrets[n], visited, f, hostOf) then Some(n) else first
    {
      var key :| key in todo;
      VisitNext(order, secrets, n, visited, key, f, hostOf);
      newBest, newFirst := VisitAnnotation(secrets[n], n, key, f, hostOf, newBest, newFirst);
      order := if KeyMatch(secrets[n], key, f, hostOf) then order + [Candidate(key, n)] else order;
      todo := todo - {key};
      visited := visited + {key};
    }
    SecretDone(order, secrets, n, visited, f, hostOf);
  }

  predicate SeesHost(s: Secret, keys: set<string>, f: Filter, hostOf: Hosts) {
    exists key :: key in keys && HostMatch(s, key, f, hostOf)
  }

  lemma SecretDone(order: seq<Candidate>, secrets: seq<Secret>, n: nat, keys: set<string>, f: Filter, hostOf: Hosts)
    requires n < |secrets| && keys == secrets[n].annotations.Keys && IsVisit(order, secrets, n, keys, f, hostOf)
    ensures IsVisit(order, secrets, n + 1, {}, f, hostOf)
  {
    forall c: Candidate | c.index < |secrets| && KeyMatch(secrets[c.index], c.key, f, hostOf)
      ensures SeenUpTo(c, n, keys) <==> SeenUpTo(c, n + 1, {})
    {
    }
  }

  predicate IsFirstSeen(secrets: seq<Secret>, first: Option<nat>, n: nat, f: Filter, hostOf: Hosts)
    requires n <= |secrets|
  {
    if first.None? then forall j :: 0 <= j < n ==> !HasHost(secrets[j], f, hostOf)
    else IsFirst(secrets, first.value, f, hostOf)
  }

  lemma FirstSeenNext(secrets: seq<Secret>, first: Option<nat>, next: Option<nat>, n: nat, f: Filter, hostOf: Hosts)
    requires n < |secrets| && IsFirstSeen(secrets, first, n, f, hostOf)
    requires next == if first.None? && HasHost(secrets[n], f, hostOf) then Some(n) else first
    ensures IsFirstSeen(secrets, next, n + 1, f, hostOf)
  {
  }

  /** The annotations are ranged over in some order. With a prefix to look for, which all callers give, the result is
      the same for all of them. */
  method SecretAnnotationFilter(secrets: seq<Secret>, f: Filter, hostOf: Hosts)
    returns (chosen: Option<Secret>, ghost order: seq<Candidate>)
    ensures IsFullVisit(order, secrets, f, hostOf) && IsResult(secrets, order, chosen, f, hostOf)
    ensures f.prefix != "" ==> IsChosen(secrets, chosen, f, hostOf)
  {
    var keyMatching: Option<Candidate> := None;
    var noKeyMatching: Option<nat> := None;
    order := [];
    for i := 0 to |secrets|
      invariant IsVisit(order, secrets, i, {}, f, hostOf) && keyMatching == Visit(order)
      invariant IsFirstSeen(secrets, noKeyMatching, i, f, hostOf)
    {
      ghost var first := noKeyMatching;
      keyMatching, noKeyMatching, order := VisitSecret(secrets, i, f, hostOf, keyMatching, noKeyMatching, order);
      FirstSeenNext(secrets, first, noKeyMatching, i, f, hostOf);
    }
    BestIsVisited(order);
    if keyMatching.Some? {
      chosen := Some(secrets[keyMatching.value.index]);
    } else if noKeyMatching.Some? {
      chosen := Some(secrets[noKeyMatching.value]);
    } else {
      chosen := None;
    }
    if f.prefix != "" {
      ResultIsChosen(secrets, order, chosen, f, hostOf);
    }
  }

  lemma {:induction false} BestIsVisited(order: seq<Candidate>)
    ensures if order == [] then Visit(order).None? else Visit(order).Some? && Visit(order).value in order
  {
    if order != [] {
      BestIsVisited(order[..|order| - 1]);
    }
  }

  // ---------------------------------------------------------------- the order does not matter

  predicate IsBest(b: Candidate, order: seq<Candidate>) {
    b in order && forall c :: c in order ==> Less(b.key, c.key) || (b.key == c.key && b.index <= c.index)
  }

  /** Without empty keys, and secret by secret, the best candidate is the first with the least key. */
  lemma {:induction false} VisitIsBest(order: seq<Candidate>)
    requires order != [] && forall c :: c in order ==> c.key != ""
    requires forall i, j :: 0 <= i < j < |order| ==> order[i].index <= order[j].index
    ensures Visit(order).Some? && IsBest(Visit(order).value, order)
  {
    var n := |order| - 1;
    var init, c := order[..n], order[n];
    assert order == init + [c];
    if init != [] {
      VisitIsBest(init);
      BetterIsBest(Visit(init).value, init, c);
    } else {
      assert Visit(init).None?;
    }
  }

  lemma BetterIsBest(b: Candidate, init: seq<Candidate>, c: Candidate)
    requires IsBest(b, init) && forall s :: s in init ==> s.index <= c.index
    ensures IsBest(if Less(c.key, b.key) then c else b, init + [c])
  {
    LessIsTotal(b.key, c.key);
    forall s | s in init && Less(c.key, b.key) ensures Less(c.key, s.key) {
      if s.key != b.key {
        LessIsTransitive(c.key, b.key, s.key);
      }
    }
  }

  lemma ResultIsChosen(secrets: seq<Secret>, order: seq<Candidate>, chosen: Option<Secret>, f: Filter, hostOf: Hosts)
    requires f.prefix != "" && IsFullVisit(order, secrets, f, hostOf) && IsResult(secrets, order, chosen, f, hostOf)
    ensures IsChosen(secrets, chosen, f, hostOf)
  {
    BestIsVisited(order);
    if order == [] {
      forall j, other | 0 <= j < |secrets| && other in secrets[j].annotations
        ensures !KeyMatch(secrets[j], other, f, hostOf)
      {
        assert Candidate(other, j) !in order;
      }
    } else {
      VisitIsBest(order);
      BestIsLeast(Visit(order).value, order, secrets, f, hostOf);
    }
  }

  lemma BestIsLeast(b: Candidate, order: seq<Candidate>, secrets: seq<Secret>, f: Filter, hostOf: Hosts)
    requires IsBest(b, order) && IsFullVisit(order, secrets, f, hostOf)
    ensures IsLeast(secrets, b.index, b.key, f, hostOf) && !NoKeyMatch(secrets, f, hostOf)
  {
    forall j, other | 0 <= j < |secrets| && other in secrets[j].annotations && KeyMatch(secrets[j], other, f, hostOf)
      ensures Candidate(other, j) in order
    {
    }
  }

  lemma LeastIsUnique(secrets: seq<Secret>, i: nat, j: nat, a: string, b: string, f: Filter, hostOf: Hosts)
    requires IsLeast(secrets, i, a, f, hostOf) && IsLeast(secrets, j, b, f, hostOf)
    ensures i == j && a == b
  {
    LessIsTotal(a, b);
  }

  /** There is only one secret to choose. */
  lemma ChosenIsUnique(secrets: seq<Secret>, a: Option<Secret>, b: Option<Secret>, f: Filter, hostOf: Hosts)
    requires IsChosen(secrets, a, f, hostOf) && IsChosen(secrets, b, f, hostOf)
    ensures a == b
  {
    if !NoKeyMatch(secrets, f, hostOf) {
      var i: nat, k: string :| IsLeast(secrets, i, k, f, hostOf) && a.value == secrets[i];
      var j: nat, l: string :| IsLeast(secrets, j, l, f, hostOf) && b.value == secrets[j];
      LeastIsUnique(secrets, i, j, k, l, f, hostOf);
    } else if !NoHost(secrets, f, hostOf) {
      var i: nat :| IsFirst(secrets, i, f, hostOf) && a.value == secrets[i];
      var j: nat :| IsFirst(secrets, j, f, hostOf) && b.value == secrets[j];
    }
  }

  /** An annotation with a URL of the host. */
  predicate Names(s: Secret, key: string, f: Filter, hostOf: Hosts) {
    key in s.annotations && hostOf(s.annotations[key]) == Some(f.host)
  }

  /** What the chosen secret is, annotation by annotation: one that has the least prefixed key with a URL of the host,
      or else the first with any such URL; there is none exactly if no annotation has one. */
  lemma ChosenInFull(secrets: seq<Secret>, chosen: Option<Secret>, f: Filter, hostOf: Hosts)
    requires IsChosen(secrets, chosen, f, hostOf)
    ensures chosen.None? <==> forall s, key :: s in secrets && key in s.annotations ==> !Names(s, key, f, hostOf)
    ensures (exists s, key :: s in secrets && key in s.annotations && Names(s, key, f, hostOf) && f.prefix <= key) ==>
      exists i, key :: 0 <= i < |secrets| && key in secrets[i].annotations && chosen == Some(secrets[i]) &&
        Names(secrets[i], key, f, hostOf) && f.prefix <= key &&
        forall j, other :: 0 <= j < |secrets| && other in secrets[j].annotations &&
                           Names(secrets[j], other, f, hostOf) && f.prefix <= other ==>
          Less(key, other) || (key == other && i <= j)
    ensures chosen.Some? &&
            (forall s, key :: s in secrets && key in s.annotations && Names(s, key, f, hostOf) ==>
               !(f.prefix <= key)) ==>
      exists i :: 0 <= i < |secrets| && chosen == Some(secrets[i]) &&
        (exists key :: key in secrets[i].annotations && Names(secrets[i], key, f, hostOf)) &&
        forall j, key :: 0 <= j < i && key in secrets[j].annotations ==> !Names(secrets[j], key, f, hostOf)
  {
    MatchesExactly(f, hostOf);
    if !NoKeyMatch(secrets, f, hostOf) {
      var i: nat, key: string :| IsLeast(secrets, i, key, f, hostOf) && chosen.value == secrets[i];
      assert key in secrets[i].annotations && Names(secrets[i], key, f, hostOf) && f.prefix <= key;
    } else if !NoHost(secrets, f, hostOf) {
      var i: nat :| IsFirst(secrets, i, f, hostOf) && chosen.value == secrets[i];
      var key :| key in secrets[i].annotations && HostMatch(secrets[i], key, f, hostOf);
      assert Names(secrets[i], key, f, hostOf);
    } else {
      forall s, key | s in secrets && key in s.annotations ensures !Names(s, key, f, hostOf) {
        var j :| 0 <= j < |secrets| && secrets[j] == s;
        assert !HasHost(secrets[j], f, hostOf);
      }
    }
  }

  lemma MatchesExactly(f: Filter, hostOf: Hosts)
    ensures forall s, key :: KeyMatch(s, key, f, hostOf) <==> Names(s, key, f, hostOf) && f.prefix <= key
    ensures forall s, key :: HostMatch(s, key, f, hostOf) <==> Names(s, key, f, hostOf) && !(f.prefix <= key)
  {
    forall key: string ensures HasPrefix(key, f.prefix) <==> f.prefix <= key {
      PrefixExactly(key, f.prefix);
    }
  }

  ghost predicate CanResult(secrets: seq<Secret>, order: seq<Candidate>, chosen: Option<Secret>, f: Filter,
                            hostOf: Hosts)
  {
    IsFullVisit(order, secrets, f, hostOf) && IsResult(secrets, order, chosen, f, hostOf)
  }

  /** Whatever the order in which annotations are visited, the result is the same. */
  ghost predicate OrderIndependent(f: Filter, hostOf: Hosts) {
    forall secrets, a, b, x, y | CanResult(secrets, a, x, f, hostOf) && CanResult(secrets, b, y, f, hostOf) :: x == y
  }

  /** For a host that some URL has, this holds exactly of the filters with a prefix. Without one, an empty key would
      pass for no key at all. */
  lemma OrderIndependentExactly(f: Filter, hostOf: Hosts, url: string)
    requires hostOf(url) == Some(f.host)
    ensures OrderIndependent(f, hostOf) <==> f.prefix != ""
  {
    if f.prefix != "" {
      forall secrets, a, b, x, y | CanResult(secrets, a, x, f, hostOf) && CanResult(secrets, b, y, f, hostOf)
        ensures x == y
      {
        ResultIsChosen(secrets, a, x, f, hostOf);
        ResultIsChosen(secrets, b, y, f, hostOf);
        ChosenIsUnique(secrets, x, y, f, hostOf);
      }
    } else {
      var secrets, one, two := TwoOrders(f, hostOf, url);
      assert secrets[0] != secrets[1];
    }
  }

  lemma TwoOrders(f: Filter, hostOf: Hosts, url: string)
    returns (secrets: seq<Secret>, one: seq<Candidate>, two: seq<Candidate>)
    requires hostOf(url) == Some(f.host) && f.prefix == ""
    ensures |secrets| == 2 && secrets[0].name != secrets[1].name
    ensures CanResult(secrets, one, Some(secrets[0]), f, hostOf) && CanResult(secrets, two, Some(secrets[1]), f, hostOf)
  {
    secrets := [Secret("one", map["" := url, "a" := url]), Secret("two", map["b" := url])];
    var e, a, b := Candidate("", 0), Candidate("a", 0), Candidate("b", 1);
    one, two := [e, a, b], [a, e, b];
    VisitThree(e, a, b);
    VisitThree(a, e, b);
    assert !Less("b", "a") && Less("", "a");
    assert Visit(one) == Some(a) && Visit(two) == Some(b);
    ThreeCandidates(secrets, one, f, hostOf, url);
    ThreeCandidates(secrets, two, f, hostOf, url);
  }

  lemma ThreeCandidates(secrets: seq<Secret>, order: seq<Candidate>, f: Filter, hostOf: Hosts, url: string)
    requires hostOf(url) == Some(f.host) && f.prefix == ""
    requires secrets == [Secret("one", map["" := url, "a" := url]), Secret("two", map["b" := url])]
    requires order == [Candidate("", 0), Candidate("a", 0), Candidate("b", 1)] ||
             order == [Candidate("a", 0), Candidate("", 0), Candidate("b", 1)]
    ensures IsFullVisit(order, secrets, f, hostOf)
  {
    assert forall c :: c in order <==> c == order[0] || c == order[1] || c == order[2];
  }

  lemma VisitThree(a: Candidate, b: Candidate, c: Candidate)
    ensures Visit([a, b, c]) == Better(Better(Better(None, a), b), c)
  {
    assert [a][..0] == [] && [a, b][..1] == [a] && [a, b, c][..2] == [a, b];
    assert Visit([a]) == Better(None, a);
    assert Visit([a, b]) == Better(Visit([a]), b);
  }

  /** Between secrets with the same least key the listed order decides. */
  lemma SharedKeyGoesToTheFirst(a: Secret, b: Secret, key: string, f: Filter, hostOf: Hosts)
    requires KeyMatch(a, key, f, hostOf) && KeyMatch(b, key, f, hostOf)
    requires forall other :: other in a.annotations || other in b.annotations ==> other == key
    ensures IsChosen([a, b], Some(a), f, hostOf) && IsChosen([b, a], Some(b), f, hostOf)
  {
    FirstOfTwo(a, b, key, f, hostOf);
    FirstOfTwo(b, a, key, f, hostOf);
  }

  lemma FirstOfTwo(a: Secret, b: Secret, key: string, f: Filter, hostOf: Hosts)
    requires KeyMatch(a, key, f, hostOf) && KeyMatch(b, key, f, hostOf)
    requires forall other :: other in a.annotations || other in b.annotations ==> other == key
    ensures IsChosen([a, b], Some(a), f, hostOf)
  {
    var two := [a, b];
    assert two[0] == a && two[1] == b;
    forall j, other | 0 <= j < |two| && other in two[j].annotations ensures other == key {
      assert other in a.annotations || other in b.annotations;
    }
    assert IsLeast(two, 0, key, f, hostOf);
  }
}
