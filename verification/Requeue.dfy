/** How a Kabanero whose featured stacks could not be reconciled is tried again: later and later, up to fifteen
    minutes. The requests are remembered per namespace. */
module Requeue {
  import opened Component

  type Time = int

  const SECOND: Time := 1_000_000_000

  datatype RequeueData = RequeueData(delay: int, futureTime: Time)

  type Delays = map<string, RequeueData>

  datatype KabaneroStatus = KabaneroStatus(ready: bool, message: string)

  datatype Event =
    | Failed(namespace: string, at: Time)
    | Succeeded(namespace: string, at: Time)

  function DelayOf(delays: Delays, namespace: string): int {
    if namespace in delays then delays[namespace].delay else 0
  }

  predicate Grants(delays: Delays, namespace: string, at: Time) {
    DelayOf(delays, namespace) == 0 || (namespace in delays && at > delays[namespace].futureTime)
  }

  function NextDelay(delay: int): int {
    if delay + 60 >= 900 then 900 else delay + 60
  }

  function After(delays: Delays, e: Event): Delays {
    match e
    case Failed(namespace, at) =>
      if Grants(delays, namespace, at) then
        var delay := NextDelay(DelayOf(delays, namespace));
        delays[namespace := RequeueData(delay, at + delay * SECOND)]
      else delays
    case Succeeded(namespace, at) => delays[namespace := RequeueData(0, at)]
  }

  class Reconciler {
    var requeueDelayMap: Delays

    constructor ()
      ensures requeueDelayMap == map[]
    {
      requeueDelayMap := map[];
    }

    /** The delay of the requested retry, if one is requested; the status is written only with it. */
    method DetermineHowToRequeue(namespace: string, status: KabaneroStatus, errorMessage: string, currentTime: Time)
      returns (requeueAfter: Option<int>, newStatus: KabaneroStatus)
      modifies this
      ensures requeueDelayMap == After(old(requeueDelayMap), Failed(namespace, currentTime))
      ensures requeueAfter.Some? <==> Grants(old(requeueDelayMap), namespace, currentTime)
      ensures requeueAfter.Some? ==> requeueAfter.value == requeueDelayMap[namespace].delay
      ensures newStatus ==
        if requeueAfter.Some? && errorMessage != status.message then KabaneroStatus(false, errorMessage)
        else status
    {
      newStatus := status;
      var requeueDelay, localFutureTime := 0, currentTime;
      if namespace !in requeueDelayMap {
        requeueDelayMap := requeueDelayMap[namespace := RequeueData(requeueDelay, localFutureTime)];
      } else {
        requeueDelay := requeueDelayMap[namespace].delay;
        localFutureTime := requeueDelayMap[namespace].futureTime;
      }
      if requeueDelay == 0 || currentTime > localFutureTime {
        if errorMessage != status.message {
          newStatus := KabaneroStatus(false, errorMessage);
        }
        requeueDelay := requeueDelay + 60;
        if requeueDelay >= 900 {
          requeueDelay := 900;
        }
        localFutureTime := currentTime + requeueDelay * SECOND;
        requeueDelayMap := requeueDelayMap[namespace := RequeueData(requeueDelay, localFutureTime)];
        return Some(requeueDelay), newStatus;
      }
      requeueAfter := None;
    }

    method Reset(namespace: string, now: Time)
      modifies this
      ensures requeueDelayMap == After(old(requeueDelayMap), Succeeded(namespace, now))
    {
      requeueDelayMap := requeueDelayMap[namespace := RequeueData(0, now)];
    }
  }

  // ---------------------------------------------------------------- runs

  function DelaysAfter(events: seq<Event>): Delays {
    if events == [] then map[] else After(DelaysAfter(events[..|events| - 1]), events[|events| - 1])
  }

  /** When retries were granted in a namespace since it last succeeded. */
  function GrantTimes(events: seq<Event>, namespace: string): seq<Time> {
    if events == [] then []
    else
      var before := events[..|events| - 1];
      match events[|events| - 1]
      case Failed(ns, at) =>
        if ns == namespace && Grants(DelaysAfter(before), ns, at) then GrantTimes(before, namespace) + [at]
        else GrantTimes(before, namespace)
      case Succeeded(ns, _) => if ns == namespace then [] else GrantTimes(before, namespace)
  }

  /** The delay of the k-th consecutive retry. */
  function Delay(k: nat): nat {
    if 60 * k < 900 then 60 * k else 900
  }

  /** What is waited in all before the retries after the i-th up to the j-th. */
  function Waited(i: nat, j: nat): nat
    requires i <= j
    decreases j
  {
    if i == j then 0 else Waited(i, j - 1) + Delay(j)
  }

  predicate Spaced(times: seq<Time>) {
    forall i, j :: 0 <= i < j < |times| ==> times[j] - times[i] > Waited(i, j) * SECOND
  }

  lemma SpacedNext(times: seq<Time>, at: Time)
    requires Spaced(times)
    requires times != [] ==> at > times[|times| - 1] + Delay(|times|) * SECOND
    ensures Spaced(times + [at])
  {
    var all := times + [at];
    forall i, j | 0 <= i < j < |all| ensures all[j] - all[i] > Waited(i, j) * SECOND {
      if j == |times| {
        assert Waited(i, j) == Waited(i, j - 1) + Delay(j);
        assert i == j - 1 || times[j - 1] - times[i] > Waited(i, j - 1) * SECOND;
      }
    }
  }

  /** In any run and any namespace: the k-th consecutive granted retry has the k-th delay, and between two of them
      lie more than all the delays from the one to the other. */
  lemma {:induction false} RetriesBackOff(events: seq<Event>, namespace: string)
    ensures var times := GrantTimes(events, namespace);
      var delays := DelaysAfter(events);
      && DelayOf(delays, namespace) == Delay(|times|)
      && (times != [] ==>
            namespace in delays && delays[namespace].futureTime == times[|times| - 1] + Delay(|times|) * SECOND)
      && Spaced(times)
  {
    if events != [] {
      var before, e := events[..|events| - 1], events[|events| - 1];
      RetriesBackOff(before, namespace);
      if e.Failed? && e.namespace == namespace && Grants(DelaysAfter(before), namespace, e.at) {
        SpacedNext(GrantTimes(before, namespace), e.at);
      }
    }
  }

  /** A failure is granted a retry exactly when it is the first, or comes after the time the last one named. */
  lemma GrantedExactly(events: seq<Event>, namespace: string, at: Time)
    ensures var times := GrantTimes(events, namespace);
      Grants(DelaysAfter(events), namespace, at) <==>
        times == [] || at > times[|times| - 1] + Delay(|times|) * SECOND
  {
    RetriesBackOff(events, namespace);
  }

  lemma {:induction false} WaitedInAll(k: nat)
    requires k > 0
    ensures k <= 16 ==> Waited(0, k - 1) == 30 * k * (k - 1)
    ensures k >= 16 ==> Waited(0, k - 1) == 7200 + 900 * (k - 16)
  {
    if k > 1 {
      WaitedInAll(k - 1);
      assert 30 * k * (k - 1) == 30 * (k - 1) * (k - 2) + 60 * (k - 1);
    }
  }

  /** From the first to the k-th consecutive retry. */
  lemma KthRetry(events: seq<Event>, namespace: string, k: nat)
    requires 2 <= k <= |GrantTimes(events, namespace)|
    ensures var times := GrantTimes(events, namespace);
      && (k <= 16 ==> times[k - 1] - times[0] > 30 * k * (k - 1) * SECOND)
      && (k >= 16 ==> times[k - 1] - times[0] > (7200 + 900 * (k - 16)) * SECOND)
  {
    RetriesBackOff(events, namespace);
    WaitedInAll(k);
  }

  /** Only a success in the namespace makes its delay fall. */
  lemma DelayNeverFalls(events: seq<Event>, e: Event, namespace: string)
    requires !(e.Succeeded? && e.namespace == namespace)
    ensures DelayOf(DelaysAfter(events), namespace) <= DelayOf(DelaysAfter(events + [e]), namespace) <= 900
  {
    assert (events + [e])[..|events|] == events;
    RetriesBackOff(events, namespace);
  }
}
