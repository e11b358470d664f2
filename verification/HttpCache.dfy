/** The HTTP cache: a map shared by many callers and a purge task. A call holds the lock twice, with the
    request between the two sections; a "not modified" answer writes the caller's own copy back. */
module HttpCache {
  import opened Component

  type Url = string
  type Body = seq<int>
  type Time = int

  datatype Entry = Entry(etag: string, date: string, body: Body, lastUsed: Time)

  type Entries = map<Url, Entry>

  const PURGE_DURATION: Time := 12 * 3600
  const TICKER_DURATION: Time := 30 * 60

  /** What the origin server sends back, and the failures of the transport. */
  datatype Response =
    | NotModified
    | Success(etag: string, date: string, body: Body)
    | OtherStatus(code: int)
    | Failed

  /** A conditional request names the cached validators. */
  datatype Request = Request(url: Url, ifNoneMatch: Option<string>, ifModifiedSince: Option<string>)

  // ---------------------------------------------------------------- the lock sections

  function Find(entries: Entries, url: Url): Option<Entry> {
    if url in entries then Some(entries[url]) else None
  }

  function RequestFor(url: Url, cached: Option<Entry>): Request {
    match cached
    case None => Request(url, None, None)
    case Some(e) => Request(url, Some(e.etag), Some(e.date))
  }

  const NOTHING_CACHED := Entry("", "", [], 0)

  function Cached(cached: Option<Entry>): Entry {
    if cached.Some? then cached.value else NOTHING_CACHED
  }

  /** The second lock section. */
  function Absorbed(entries: Entries, url: Url, cached: Option<Entry>, r: Response, now: Time): Entries {
    match r
    case NotModified => entries[url := Cached(cached).(lastUsed := now)]
    case Success(etag, date, body) =>
      if etag != "" && date != "" then entries[url := Entry(etag, date, body, now)] else entries - {url}
    case OtherStatus(_) => entries
    case Failed => entries
  }

  function Result(cached: Option<Entry>, r: Response): Option<Body> {
    match r
    case NotModified => Some(Cached(cached).body)
    case Success(_, _, body) => Some(body)
    case OtherStatus(_) => None
    case Failed => None
  }

  function Purged(entries: Entries, now: Time, duration: Time): Entries {
    map url | url in entries && now - entries[url].lastUsed <= duration :: entries[url]
  }

  class Cache {
    var entries: Entries

    constructor ()
      ensures entries == map[]
    {
      entries := map[];
    }

    method Lookup(url: Url) returns (cached: Option<Entry>, request: Request)
      ensures cached == Find(entries, url) && request == RequestFor(url, cached)
      ensures request == if url in entries then Request(url, Some(entries[url].etag), Some(entries[url].date))
                         else Request(url, None, None)
    {
      cached := if url in entries then Some(entries[url]) else None;
      request := Request(url, None, None);
      if cached.Some? {
        request := request.(ifNoneMatch := Some(cached.value.etag), ifModifiedSince := Some(cached.value.date));
      }
    }

    method Absorb(url: Url, cached: Option<Entry>, r: Response, now: Time) returns (body: Option<Body>)
      modifies this
      ensures entries == Absorbed(old(entries), url, cached, r, now)
      ensures body == Result(cached, r)
      ensures r.Success? ==> body == Some(r.body)
      ensures r.Success? && r.etag != "" && r.date != "" ==>
        entries == old(entries)[url := Entry(r.etag, r.date, r.body, now)]
      ensures r.Success? && (r.etag == "" || r.date == "") ==> entries == old(entries) - {url}
      ensures r.NotModified? && cached.Some? ==>
        body == Some(cached.value.body) &&
        entries == old(entries)[url := Entry(cached.value.etag, cached.value.date, cached.value.body, now)]
      ensures !r.Success? && !r.NotModified? ==> body == None && entries == old(entries)
    {
      match r {
        case NotModified =>
          var cacheData := Cached(cached);
          cacheData := cacheData.(lastUsed := now);
          entries := entries[url := cacheData];
          body := Some(cacheData.body);
        case OtherStatus(_) =>
          body := None;
        case Failed =>
          body := None;
        case Success(etag, date, b) =>
          if |etag| > 0 && |date| > 0 {
            entries := entries[url := Entry(etag, date, b, now)];
          } else {
            entries := entries - {url};
          }
          body := Some(b);
      }
    }

    /** A call that nobody interferes with. */
    method GetFromCache(url: Url, respond: Request -> Response, now: Time) returns (body: Option<Body>)
      modifies this
      ensures var cached := Find(old(entries), url);
        var r := respond(RequestFor(url, cached));
        body == Result(cached, r) && entries == Absorbed(old(entries), url, cached, r, now)
      ensures url !in old(entries) && respond(Request(url, None, None)).Success? ==>
        body == Some(respond(Request(url, None, None)).body)
      ensures url in old(entries) ==>
        var e := old(entries)[url];
        var r := respond(Request(url, Some(e.etag), Some(e.date)));
        && (r.Success? ==> body == Some(r.body)) && (r.NotModified? ==> body == Some(e.body))
    {
      var cached, request := Lookup(url);
      body := Absorb(url, cached, respond(request), now);
    }

    method Purge(now: Time, duration: Time)
      modifies this
      ensures entries == Purged(old(entries), now, duration)
      ensures forall url :: url in entries <==> url in old(entries) && now - old(entries)[url].lastUsed <= duration
      ensures forall url :: url in entries ==> entries[url] == old(entries)[url]
    {
      var todo := entries.Keys;
      while todo != {}
        invariant todo <= old(entries).Keys
        invariant entries == map url | url in old(entries) &&
          (url in todo || now - old(entries)[url].lastUsed <= duration) :: old(entries)[url]
        decreases todo
      {
        var url :| url in todo;
        if now - entries[url].lastUsed > duration {
          entries := entries - {url};
        }
        todo := todo - {url};
      }
    }
  }

  // ---------------------------------------------------------------- many callers

  /** What the origin currently serves under a URL. */
  datatype Representation = Representation(etag: string, body: Body)

  /** A call between its two lock sections, and after the second one. */
  datatype Call =
    | Asking(url: Url, cached: Option<Entry>)
    | Answered(url: Url, cached: Option<Entry>, response: Response, at: nat)
    | Returned(url: Url, body: Option<Body>, at: nat)

  /** The clock of the purge task runs from the first entry stored: it holds the time of the last purge. */
  datatype State = State(entries: Entries, origin: map<Url, Representation>, calls: map<nat, Call>, now: Time,
                         ticker: Option<Time>, steps: nat)

  /** A call that reuses its copy reads the clock before it takes the lock again. */
  datatype Event =
    | Enter(call: nat, url: Url)
    | Answer(call: nat, response: Response)
    | Leave(call: nat, stamp: Time)
    | Publish(url: Url, representation: Representation)
    | PurgeTick
    | Wait(duration: Time)

  /** The origin may say "not modified" only to a request whose If-None-Match names its current entity tag
      (sections 3.2 and 4.1 of RFC 7232; If-Modified-Since is then ignored, section 3.3). A success carries
      the current body, and the current entity tag or none. */
  predicate MayAnswer(r: Response, request: Request, current: Option<Representation>) {
    match r
    case NotModified =>
      current.Some? && current.value.etag != "" && request.ifNoneMatch == Some(current.value.etag)
    case Success(etag, _, body) =>
      current.Some? && body == current.value.body && (etag == current.value.etag || etag == "")
    case OtherStatus(code) => code != 200 && code != 304
    case Failed => true
  }

  function Current(origin: map<Url, Representation>, url: Url): Option<Representation> {
    if url in origin then Some(origin[url]) else None
  }

  predicate Enabled(s: State, e: Event) {
    match e
    case Enter(call, _) => call !in s.calls
    case Answer(call, r) =>
      && call in s.calls && s.calls[call].Asking?
      && MayAnswer(r, RequestFor(s.calls[call].url, s.calls[call].cached), Current(s.origin, s.calls[call].url))
    case Leave(call, stamp) =>
      && call in s.calls && s.calls[call].Answered?
      && stamp <= s.now && (s.calls[call].response.Success? ==> stamp == s.now)
    case Publish(_, _) => true
    case PurgeTick => s.ticker.Some?
    case Wait(d) => d >= 0 && (s.ticker.Some? ==> s.now + d - s.ticker.value <= TICKER_DURATION)
  }

  predicate StartsTicker(r: Response) {
    r.Success? && r.etag != "" && r.date != ""
  }

  function Next(s: State, e: Event): State
    requires Enabled(s, e)
  {
    var s := s.(steps := s.steps + 1);
    match e
    case Enter(call, url) => s.(calls := s.calls[call := Asking(url, Find(s.entries, url))])
    case Answer(call, r) =>
      s.(calls := s.calls[call := Answered(s.calls[call].url, s.calls[call].cached, r, s.steps - 1)])
    case Leave(call, stamp) =>
      var c := s.calls[call];
      s.(entries := Absorbed(s.entries, c.url, c.cached, c.response, stamp),
         calls := s.calls[call := Returned(c.url, Result(c.cached, c.response), c.at)],
         ticker := if s.ticker.None? && StartsTicker(c.response) then Some(s.now) else s.ticker)
    case Publish(url, representation) => s.(origin := s.origin[url := representation])
    case PurgeTick => s.(entries := Purged(s.entries, s.now, PURGE_DURATION), ticker := Some(s.now))
    case Wait(d) => s.(now := s.now + d)
  }

  predicate IsRun(states: seq<State>, events: seq<Event>) {
    && |states| == |events| + 1 && states[0].entries == map[] && states[0].calls == map[]
    && states[0].ticker == None && states[0].steps == 0
    && forall i :: 0 <= i < |events| ==> Enabled(states[i], events[i]) && states[i + 1] == Next(states[i], events[i])
  }

  /** At some moment up to n the origin served the body under the URL with the entity tag. */
  predicate Published(states: seq<State>, n: nat, url: Url, etag: string, body: Body) {
    exists m :: 0 <= m <= n && m < |states| && url in states[m].origin &&
      states[m].origin[url] == Representation(etag, body)
  }

  /** Strong validators: an entity tag is never reused for another body of the same resource (section 2.3
      of RFC 7232). */
  predicate StrongEtags(states: seq<State>) {
    forall i, j, url :: 0 <= i < |states| && 0 <= j < |states| && url in states[i].origin && url in states[j].origin &&
      states[i].origin[url].etag == states[j].origin[url].etag && states[i].origin[url].etag != ""
      ==> states[i].origin[url].body == states[j].origin[url].body
  }

  // ---------------------------------------------------------------- what is returned

  predicate GoodEntry(states: seq<State>, n: nat, url: Url, e: Entry) {
    e.etag != "" && Published(states, n, url, e.etag, e.body)
  }

  /** Every copy of an entry, in the cache or in a caller's hands, was once the origin's; every answer and
      every returned body is the origin's at the moment it answered. */
  predicate GoodCall(states: seq<State>, n: nat, c: Call) {
    match c
    case Asking(url, cached) => cached.Some? ==> GoodEntry(states, n, url, cached.value)
    case Answered(url, cached, r, at) =>
      && (cached.Some? ==> GoodEntry(states, n, url, cached.value))
      && (r.NotModified? ==> cached.Some?)
      && (r.Success? && r.etag != "" ==> Published(states, n, url, r.etag, r.body))
      && (Result(cached, r).Some? ==> WasCurrent(states, n, url, Result(cached, r).value, at))
    case Returned(url, body, at) => body.Some? ==> WasCurrent(states, n, url, body.value, at)
  }

  predicate WasCurrent(states: seq<State>, n: nat, url: Url, body: Body, at: nat) {
    at < n && at < |states| && url in states[at].origin && states[at].origin[url].body == body
  }

  predicate Good(states: seq<State>, n: nat)
    requires n < |states|
  {
    && states[n].steps == n
    && (forall url :: url in states[n].entries ==> GoodEntry(states, n, url, states[n].entries[url]))
    && (forall c :: c in states[n].calls ==> GoodCall(states, n, states[n].calls[c]))
  }

  lemma GoodLater(states: seq<State>, n: nat)
    ensures forall url, etag, body :: Published(states, n, url, etag, body) ==>
      Published(states, n + 1, url, etag, body)
    ensures forall url, e :: GoodEntry(states, n, url, e) ==> GoodEntry(states, n + 1, url, e)
    ensures forall c :: GoodCall(states, n, c) ==> GoodCall(states, n + 1, c)
  {
    forall url, etag, body | Published(states, n, url, etag, body)
      ensures Published(states, n + 1, url, etag, body)
    {
      var m :| 0 <= m <= n && m < |states| && url in states[m].origin &&
        states[m].origin[url] == Representation(etag, body);
      assert 0 <= m <= n + 1;
    }
  }

  lemma AnswerIsCurrent(states: seq<State>, n: nat, c: Call, r: Response)
    requires StrongEtags(states) && n < |states| && c.Asking? && GoodCall(states, n, c)
    requires MayAnswer(r, RequestFor(c.url, c.cached), Current(states[n].origin, c.url))
    ensures GoodCall(states, n + 1, Answered(c.url, c.cached, r, n))
  {
    GoodLater(states, n);
    if r.NotModified? {
      var e := c.cached.value;
      var m :| 0 <= m <= n && m < |states| && c.url in states[m].origin &&
               states[m].origin[c.url] == Representation(e.etag, e.body);
      assert states[m].origin[c.url].body == states[n].origin[c.url].body;
    } else if r.Success? && r.etag != "" {
      assert states[n].origin[c.url] == Representation(r.etag, r.body);
      assert Published(states, n + 1, c.url, r.etag, r.body);
    }
  }

  lemma LeaveKeepsGood(states: seq<State>, n: nat, c: Call, stamp: Time)
    requires n < |states| && Good(states, n) && c.Answered? && GoodCall(states, n, c)
    ensures var entries := Absorbed(states[n].entries, c.url, c.cached, c.response, stamp);
      forall url :: url in entries ==> GoodEntry(states, n + 1, url, entries[url])
  {
    GoodLater(states, n);
  }

  lemma {:induction false} RunIsGood(states: seq<State>, events: seq<Event>, n: nat)
    requires IsRun(states, events) && StrongEtags(states) && n < |states|
    ensures Good(states, n)
  {
    if n != 0 {
      var m := n - 1;
      RunIsGood(states, events, m);
      GoodLater(states, m);
      var e := events[m];
      assert states[n] == Next(states[m], e);
      match e {
        case Enter(call, url) =>
          assert GoodCall(states, n, Asking(url, Find(states[m].entries, url)));
        case Answer(call, r) =>
          AnswerIsCurrent(states, m, states[m].calls[call], r);
        case Leave(call, stamp) =>
          LeaveKeepsGood(states, m, states[m].calls[call], stamp);
        case Publish(_, _) =>
        case PurgeTick =>
        case Wait(_) =>
      }
    }
  }

  /** For any number of concurrent calls, purges and publications: a returned body is what the origin served
      at the moment it answered this very call. */
  lemma ReturnedBodyWasCurrent(states: seq<State>, events: seq<Event>, n: nat, call: nat)
    requires IsRun(states, events) && StrongEtags(states) && n < |states|
    requires call in states[n].calls && states[n].calls[call].Returned? && states[n].calls[call].body.Some?
    ensures var c := states[n].calls[call];
      && c.at < n && events[c.at].Answer? && events[c.at].call == call
      && c.url in states[c.at].origin && states[c.at].origin[c.url].body == c.body.value
  {
    RunIsGood(states, events, n);
    AnsweredWhen(states, events, n, call);
    assert GoodCall(states, n, states[n].calls[call]);
  }

  lemma {:induction false} AnsweredWhen(states: seq<State>, events: seq<Event>, n: nat, call: nat)
    requires IsRun(states, events) && n < |states| && call in states[n].calls
    ensures states[n].steps == n
    ensures var c := states[n].calls[call];
      !c.Asking? ==> c.at < n && events[c.at].Answer? && events[c.at].call == call
  {
    if n != 0 {
      StepsCount(states, events, n - 1);
      assert states[n] == Next(states[n - 1], events[n - 1]);
      if call in states[n - 1].calls {
        AnsweredWhen(states, events, n - 1, call);
      }
    }
  }

  lemma {:induction false} StepsCount(states: seq<State>, events: seq<Event>, n: nat)
    requires IsRun(states, events) && n < |states|
    ensures states[n].steps == n
  {
    if n != 0 {
      StepsCount(states, events, n - 1);
      assert states[n] == Next(states[n - 1], events[n - 1]);
    }
  }

  // ---------------------------------------------------------------- which calls return a body

  /** What the caller gets for an answer, given the copy it took on entry. */
  predicate Gives(r: Response, copies: Entries, url: Url, body: Option<Body>) {
    match r
    case Success(_, _, b) => body == Some(b)
    case NotModified => url in copies && body == Some(copies[url].body)
    case OtherStatus(_) => body == None
    case Failed => body == None
  }

  predicate HasCopy(copies: Entries, url: Url, cached: Option<Entry>) {
    if url in copies then cached == Some(copies[url]) else cached == None
  }

  /** A call that entered as event i, and what is known of it since. */
  predicate Entered(states: seq<State>, events: seq<Event>, i: nat, call: nat, c: Call)
    requires |states| == |events| + 1
  {
    && i < |events| && events[i] == Enter(call, c.url)
    && match c
       case Asking(url, cached) => HasCopy(states[i].entries, url, cached)
       case Answered(url, cached, r, at) =>
         && HasCopy(states[i].entries, url, cached) && i < at < |events| && events[at] == Answer(call, r)
         && (r.NotModified? ==> url in states[i].entries)
       case Returned(url, body, at) =>
         && i < at < |events| && events[at].Answer? && events[at].call == call
         && Gives(events[at].response, states[i].entries, url, body)
  }

  lemma {:induction false} CallEntered(states: seq<State>, events: seq<Event>, n: nat, call: nat) returns (i: nat)
    requires IsRun(states, events) && n < |states| && call in states[n].calls
    ensures i < n && Entered(states, events, i, call, states[n].calls[call])
  {
    var before := n - 1;
    var e := events[before];
    assert states[n] == Next(states[before], e);
    StepsCount(states, events, before);
    if call in states[before].calls {
      i := CallEntered(states, events, before, call);
      EnteredNext(states, events, before, call, i);
    } else {
      i := before;
    }
  }

  lemma EnteredNext(states: seq<State>, events: seq<Event>, n: nat, call: nat, i: nat)
    requires |states| == |events| + 1 && n < |events| && i < n && states[n].steps == n
    requires Enabled(states[n], events[n]) && states[n + 1] == Next(states[n], events[n])
    requires call in states[n].calls && Entered(states, events, i, call, states[n].calls[call])
    ensures call in states[n + 1].calls && Entered(states, events, i, call, states[n + 1].calls[call])
  {}

  /** Over any run: a call that has returned gives the body of the 200 that answered it, or for a 304 the body of the
      copy that was in the cache when it entered, and nothing otherwise. */
  lemma ReturnedExactly(states: seq<State>, events: seq<Event>, n: nat, call: nat)
    requires IsRun(states, events) && n < |states|
    requires call in states[n].calls && states[n].calls[call].Returned?
    ensures var c := states[n].calls[call];
      && c.at < n && events[c.at].Answer? && events[c.at].call == call
      && (c.body.Some? <==> events[c.at].response.Success? || events[c.at].response.NotModified?)
      && exists i :: 0 <= i < c.at && events[i] == Enter(call, c.url) &&
                     Gives(events[c.at].response, states[i].entries, c.url, c.body)
  {
    var i := CallEntered(states, events, n, call);
    AnsweredWhen(states, events, n, call);
    assert events[i] == Enter(call, states[n].calls[call].url);
  }

  /** With strong entity tags, every call that is answered by a 200 or a 304 returns what the origin served at that
      moment. */
  lemma AnsweredReturnsCurrent(states: seq<State>, events: seq<Event>, n: nat, call: nat)
    requires IsRun(states, events) && StrongEtags(states) && n < |states|
    requires call in states[n].calls && states[n].calls[call].Returned?
    ensures var c := states[n].calls[call];
      && c.at < n && events[c.at].Answer?
      && (events[c.at].response.Success? || events[c.at].response.NotModified? ==>
            c.url in states[c.at].origin && c.body == Some(states[c.at].origin[c.url].body))
  {
    ReturnedExactly(states, events, n, call);
    if states[n].calls[call].body.Some? {
      ReturnedBodyWasCurrent(states, events, n, call);
    }
  }

  // ---------------------------------------------------------------- what an origin publishes

  type Origin = map<Url, Representation>

  datatype Publication = Publication(url: Url, representation: Representation)

  function OriginAfter(origin: Origin, history: seq<Publication>): Origin {
    if history == [] then origin
    else
      var last := history[|history| - 1];
      OriginAfter(origin, history[..|history| - 1])[last.url := last.representation]
  }

  /** The same entity tag means the same body. */
  predicate Agree(a: Origin, b: Origin, url: Url) {
    url in a && url in b && a[url].etag == b[url].etag != "" ==> a[url].body == b[url].body
  }

  /** No entity tag is used for two bodies of a resource. */
  ghost predicate StrongHistory(origin: Origin, history: seq<Publication>) {
    forall i, j, url :: 0 <= i <= |history| && 0 <= j <= |history| ==>
      Agree(OriginAfter(origin, history[..i]), OriginAfter(origin, history[..j]), url)
  }

  function PublicationOf(e: Event): seq<Publication> {
    if e.Publish? then [Publication(e.url, e.representation)] else []
  }

  function PublicationsUpTo(events: seq<Event>, n: nat): seq<Publication>
    requires n <= |events|
  {
    if n == 0 then [] else PublicationsUpTo(events, n - 1) + PublicationOf(events[n - 1])
  }

  function Publications(events: seq<Event>): seq<Publication> {
    PublicationsUpTo(events, |events|)
  }

  lemma {:induction false} SameUpTo(a: seq<Event>, b: seq<Event>, n: nat)
    requires n <= |a| && n <= |b| && forall i :: 0 <= i < n ==> a[i] == b[i]
    ensures PublicationsUpTo(a, n) == PublicationsUpTo(b, n)
  {
    if n != 0 {
      SameUpTo(a, b, n - 1);
    }
  }

  lemma {:induction false} ConcatUpTo(a: seq<Event>, b: seq<Event>, n: nat)
    requires n <= |b|
    ensures PublicationsUpTo(a + b, |a| + n) == Publications(a) + PublicationsUpTo(b, n)
  {
    if n == 0 {
      SameUpTo(a + b, a, |a|);
    } else {
      ConcatUpTo(a, b, n - 1);
      assert (a + b)[|a| + n - 1] == b[n - 1];
    }
  }

  lemma PublicationsConcat(a: seq<Event>, b: seq<Event>)
    ensures Publications(a + b) == Publications(a) + Publications(b)
  {
    ConcatUpTo(a, b, |b|);
  }

  lemma {:induction false} PublishedBefore(events: seq<Event>, n: nat, m: nat)
    requires n <= m <= |events|
    ensures PublicationsUpTo(events, n) <= PublicationsUpTo(events, m)
  {
    if n < m {
      PublishedBefore(events, n, m - 1);
    }
  }

  lemma {:induction false} OriginOfRun(states: seq<State>, events: seq<Event>, n: nat)
    requires IsRun(states, events) && n < |states|
    ensures states[n].origin == OriginAfter(states[0].origin, PublicationsUpTo(events, n))
  {
    if n != 0 {
      var before := n - 1;
      OriginOfRun(states, events, before);
      assert states[n] == Next(states[before], events[before]);
      PublishedNext(states[0].origin, PublicationsUpTo(events, before), events[before]);
    }
  }

  lemma PublishedNext(origin: Origin, history: seq<Publication>, e: Event)
    ensures OriginAfter(origin, history + PublicationOf(e)) ==
      if e.Publish? then OriginAfter(origin, history)[e.url := e.representation] else OriginAfter(origin, history)
  {
    if e.Publish? {
      assert (history + PublicationOf(e))[..|history|] == history;
    } else {
      assert history + PublicationOf(e) == history;
    }
  }

  lemma StrongHistoryOfRun(states: seq<State>, events: seq<Event>)
    requires IsRun(states, events) && StrongHistory(states[0].origin, Publications(events))
    ensures StrongEtags(states)
  {
    var origin, history := states[0].origin, Publications(events);
    forall n | 0 <= n < |states|
      ensures exists k :: 0 <= k <= |history| && states[n].origin == OriginAfter(origin, history[..k])
    {
      OriginOfRun(states, events, n);
      PublishedBefore(events, n, |events|);
      assert history[..|PublicationsUpTo(events, n)|] == PublicationsUpTo(events, n);
    }
    forall i, j, url | 0 <= i < |states| && 0 <= j < |states| && url in states[i].origin && url in states[j].origin &&
      states[i].origin[url].etag == states[j].origin[url].etag && states[i].origin[url].etag != ""
      ensures states[i].origin[url].body == states[j].origin[url].body
    {
      var k :| 0 <= k <= |history| && states[i].origin == OriginAfter(origin, history[..k]);
      var l :| 0 <= l <= |history| && states[j].origin == OriginAfter(origin, history[..l]);
      assert Agree(OriginAfter(origin, history[..k]), OriginAfter(origin, history[..l]), url);
    }
  }

  // ---------------------------------------------------------------- runs made of pieces

  predicate Moves(states: seq<State>, events: seq<Event>) {
    && |states| == |events| + 1
    && (events != [] ==>
          var n := |events| - 1;
          && Moves(states[..n + 1], events[..n])
          && Enabled(states[n], events[n]) && states[n + 1] == Next(states[n], events[n]))
  }

  lemma {:induction false} MovesAt(states: seq<State>, events: seq<Event>, i: nat)
    requires Moves(states, events) && i < |events|
    ensures Enabled(states[i], events[i]) && states[i + 1] == Next(states[i], events[i])
  {
    var n := |events| - 1;
    if i < n {
      MovesAt(states[..n + 1], events[..n], i);
    }
  }

  /** A run goes on with one more event. */
  lemma OneMore(x: seq<State>, a: seq<Event>, e: Event) returns (y: seq<State>)
    requires Moves(x, a) && Enabled(x[|a|], e)
    ensures Moves(y, a + [e]) && |y| == |a| + 2 && y[|a| + 1] == Next(x[|a|], e) && x <= y
  {
    y := x + [Next(x[|a|], e)];
    assert (a + [e])[..|a|] == a && y[..|a| + 1] == x;
  }

  function PublishAll(history: seq<Publication>): (events: seq<Event>)
    ensures |events| == |history|
  {
    seq(|history|, i requires 0 <= i < |history| => Publish(history[i].url, history[i].representation))
  }

  lemma PublishAllNext(history: seq<Publication>, n: nat)
    requires |history| == n + 1
    ensures PublishAll(history) == PublishAll(history[..n]) + [Publish(history[n].url, history[n].representation)]
  {}

  lemma {:induction false} PublicationsOfAll(history: seq<Publication>, n: nat)
    requires n <= |history|
    ensures PublicationsUpTo(PublishAll(history), n) == history[..n]
  {
    if n != 0 {
      PublicationsOfAll(history, n - 1);
    }
  }

  lemma PublishAllPublishes(a: seq<Event>, history: seq<Publication>)
    ensures Publications(a + PublishAll(history)) == Publications(a) + history
  {
    PublicationsOfAll(history, |history|);
    PublicationsConcat(a, PublishAll(history));
  }

  /** The state after publications. */
  function AfterAll(s: State, history: seq<Publication>): State {
    s.(origin := OriginAfter(s.origin, history), steps := s.steps + |history|)
  }

  lemma AfterAllNext(s: State, history: seq<Publication>, n: nat)
    requires |history| == n + 1
    ensures AfterAll(s, history) ==
      Next(AfterAll(s, history[..n]), Publish(history[n].url, history[n].representation))
  {}

  lemma {:induction false} PublishOn(x: seq<State>, a: seq<Event>, history: seq<Publication>) returns (y: seq<State>)
    requires Moves(x, a)
    ensures Moves(y, a + PublishAll(history)) && x <= y && y[|a| + |history|] == AfterAll(x[|a|], history)
    decreases |history|
  {
    if history == [] {
      assert a + PublishAll(history) == a;
      y := x;
    } else {
      var n := |history| - 1;
      var init, last := history[..n], Publish(history[n].url, history[n].representation);
      var before := PublishOn(x, a, init);
      AfterAllNext(x[|a|], history, n);
      PublishAllNext(history, n);
      var events := a + PublishAll(init);
      assert |events| == |a| + n;
      y := OneMore(before, events, last);
      assert a + PublishAll(history) == events + [last];
    }
  }

  function CallEvents(call: nat, url: Url, r: Response): seq<Event> {
    [Enter(call, url), Answer(call, r), Leave(call, 0)]
  }

  lemma CallPublishesNothing(a: seq<Event>, call: nat, url: Url, r: Response)
    ensures Publications(a + CallEvents(call, url, r)) == Publications(a)
  {
    var events := CallEvents(call, url, r);
    assert PublicationsUpTo(events, 0) == [] && PublicationOf(events[0]) == [];
    assert PublicationsUpTo(events, 1) == [] && PublicationOf(events[1]) == [];
    assert PublicationsUpTo(events, 2) == [] && PublicationOf(events[2]) == [];
    PublicationsConcat(a, events);
  }

  /** A run goes on with a call that nobody interferes with, while the clock has not moved. */
  lemma CallOn(x: seq<State>, a: seq<Event>, call: nat, url: Url, r: Response) returns (y: seq<State>)
    requires Moves(x, a) && call !in x[|a|].calls && x[|a|].now == 0
    requires MayAnswer(r, RequestFor(url, Find(x[|a|].entries, url)), Current(x[|a|].origin, url))
    ensures Moves(y, a + CallEvents(call, url, r)) && x <= y && y[|a| + 1].origin == x[|a|].origin
    ensures y[|a| + 3] == AfterCall(x[|a|], call, url, r)
  {
    var s, cached := x[|a|], Find(x[|a|].entries, url);
    var e0, e1, e2 := Enter(call, url), Answer(call, r), Leave(call, 0);
    var s1 := s.(calls := s.calls[call := Asking(url, cached)], steps := s.steps + 1);
    var s2 := s1.(calls := s1.calls[call := Answered(url, cached, r, s.steps + 1)], steps := s.steps + 2);
    LeaveOf(s, s2, call, url, cached, r);
    var y1 := OneMore(x, a, e0);
    assert Next(s, e0) == s1;
    var y2 := OneMore(y1, a + [e0], e1);
    assert Next(s1, e1) == s2;
    y := OneMore(y2, a + [e0] + [e1], e2);
    assert a + CallEvents(call, url, r) == a + [e0] + [e1] + [e2];
  }

  function AfterCall(s: State, call: nat, url: Url, r: Response): State {
    var cached := Find(s.entries, url);
    s.(entries := Absorbed(s.entries, url, cached, r, 0),
       calls := s.calls[call := Returned(url, Result(cached, r), s.steps + 1)],
       ticker := if s.ticker.None? && StartsTicker(r) then Some(0) else s.ticker, steps := s.steps + 3)
  }

  lemma LeaveOf(s: State, s2: State, call: nat, url: Url, cached: Option<Entry>, r: Response)
    requires s.now == 0 && cached == Find(s.entries, url)
    requires s2 == s.(calls := s.calls[call := Asking(url, cached)][call := Answered(url, cached, r, s.steps + 1)],
                      steps := s.steps + 2)
    ensures Enabled(s2, Leave(call, 0)) && Next(s2, Leave(call, 0)) == AfterCall(s, call, url, r)
  {
    assert s2.calls[call := Returned(url, Result(cached, r), s.steps + 1)] ==
      s.calls[call := Returned(url, Result(cached, r), s.steps + 1)];
  }

  // ---------------------------------------------------------------- strong entity tags are exactly what is needed

  /** Every body that was returned is what the origin served when it answered the call. */
  ghost predicate ReturnsAreCurrent(states: seq<State>, events: seq<Event>)
    requires |states| == |events| + 1
  {
    forall n, call :: 0 <= n < |states| && call in states[n].calls ==> ReturnIsCurrent(states, events, n, call)
  }

  predicate ReturnIsCurrent(states: seq<State>, events: seq<Event>, n: nat, call: nat)
    requires |states| == |events| + 1 && n < |states| && call in states[n].calls
  {
    var c := states[n].calls[call];
    c.Returned? && c.body.Some? ==>
      && c.at < n && events[c.at].Answer? && events[c.at].call == call
      && c.url in states[c.at].origin && states[c.at].origin[c.url].body == c.body.value
  }

  predicate IsRunOf(states: seq<State>, events: seq<Event>, origin: Origin, history: seq<Publication>) {
    IsRun(states, events) && states[0].origin == origin && Publications(events) == history
  }

  function Start(origin: Origin): State {
    State(map[], origin, map[], 0, None, 0)
  }

  lemma {:induction false} OriginConcat(origin: Origin, a: seq<Publication>, b: seq<Publication>)
    ensures OriginAfter(OriginAfter(origin, a), b) == OriginAfter(origin, a + b)
    decreases |b|
  {
    if b == [] {
      assert a + b == a;
    } else {
      var n := |b| - 1;
      OriginConcat(origin, a, b[..n]);
      assert (a + b)[..|a + b| - 1] == a + b[..n];
    }
  }

  /** The state when a copy of a representation is cached and nobody waits. */
  predicate Holds(s: State, url: Url, r: Representation, steps: nat) {
    && s.entries == map[url := Entry(r.etag, "now", r.body, 0)] && 1 !in s.calls && s.now == 0 && s.steps == steps
  }

  /** An entity tag that the resource has after i publications and after j. */
  predicate Reused(origin: Origin, history: seq<Publication>, i: nat, j: nat, url: Url)
    requires i <= j <= |history|
  {
    !Agree(OriginAfter(origin, history[..i]), OriginAfter(origin, history[..j]), url)
  }

  /** The first call fills the cache. */
  lemma FillOn(x: seq<State>, a: seq<Event>, url: Url, r: Representation) returns (y: seq<State>, b: seq<Event>)
    requires Moves(x, a) && x[|a|].entries == map[] && x[|a|].calls == map[] && x[|a|].now == 0 && x[|a|].steps == |a|
    requires url in x[|a|].origin && x[|a|].origin[url] == r && r.etag != ""
    ensures Moves(y, b) && y[0] == x[0] && Publications(b) == Publications(a)
    ensures Holds(y[|b|], url, r, |b|) && y[|b|].origin == x[|a|].origin
  {
    var answer := Success(r.etag, "now", r.body);
    y := CallOn(x, a, 0, url, answer);
    b := a + CallEvents(0, url, answer);
    assert |b| == |a| + 3;
    FilledHolds(x[|a|], url, r);
    CallPublishesNothing(a, 0, url, answer);
  }

  lemma FilledHolds(s: State, url: Url, r: Representation)
    requires s.entries == map[] && s.calls == map[] && s.now == 0 && r.etag != ""
    ensures Holds(AfterCall(s, 0, url, Success(r.etag, "now", r.body)), url, r, s.steps + 3)
  {}

  /** The cache is filled after i publications, the others up to j follow. */
  lemma FillRuns(origin: Origin, history: seq<Publication>, i: nat, url: Url)
    returns (states: seq<State>, events: seq<Event>)
    requires i <= |history| && url in OriginAfter(origin, history[..i])
    requires OriginAfter(origin, history[..i])[url].etag != ""
    ensures Moves(states, events) && states[0] == Start(origin) && Publications(events) == history[..i]
    ensures Holds(states[|events|], url, OriginAfter(origin, history[..i])[url], |events|)
    ensures states[|events|].origin == OriginAfter(origin, history[..i])
  {
    var x := PublishOn([Start(origin)], [], history[..i]);
    assert [] + PublishAll(history[..i]) == PublishAll(history[..i]);
    PublishAllPublishes([], history[..i]);
    states, events := FillOn(x, PublishAll(history[..i]), url, OriginAfter(origin, history[..i])[url]);
  }

  lemma LateRuns(origin: Origin, history: seq<Publication>, i: nat, j: nat, url: Url)
    returns (states: seq<State>, events: seq<Event>)
    requires i <= j <= |history| && Reused(origin, history, i, j, url)
    ensures Moves(states, events) && states[0] == Start(origin) && Publications(events) == history[..j]
    ensures Holds(states[|events|], url, OriginAfter(origin, history[..i])[url], |events|)
    ensures states[|events|].origin == OriginAfter(origin, history[..j])
  {
    var x, a := FillRuns(origin, history, i, url);
    states, events := PublishHeld(x, a, history[i..j], url, OriginAfter(origin, history[..i])[url]);
    OriginBetween(origin, history, i, j);
  }

  lemma PublishHeld(x: seq<State>, a: seq<Event>, history: seq<Publication>, url: Url, r: Representation)
    returns (y: seq<State>, b: seq<Event>)
    requires Moves(x, a) && Holds(x[|a|], url, r, |a|)
    ensures Moves(y, b) && y[0] == x[0] && Publications(b) == Publications(a) + history
    ensures Holds(y[|b|], url, r, |b|) && y[|b|].origin == OriginAfter(x[|a|].origin, history)
  {
    HoldsOn(x[|a|], url, r, |a|, history);
    y := PublishOn(x, a, history);
    b := a + PublishAll(history);
    assert |b| == |a| + |history|;
    PublishAllPublishes(a, history);
  }

  lemma OriginBetween(origin: Origin, history: seq<Publication>, i: nat, j: nat)
    requires i <= j <= |history|
    ensures OriginAfter(OriginAfter(origin, history[..i]), history[i..j]) == OriginAfter(origin, history[..j])
    ensures history[..i] + history[i..j] == history[..j]
  {
    OriginConcat(origin, history[..i], history[i..j]);
    assert history[..i] + history[i..j] == history[..j];
  }

  lemma HoldsOn(s: State, url: Url, r: Representation, steps: nat, history: seq<Publication>)
    requires Holds(s, url, r, steps)
    ensures Holds(AfterAll(s, history), url, r, steps + |history|)
    ensures AfterAll(s, history).origin == OriginAfter(s.origin, history)
  {}

  /** For every history in which an entity tag is used for two bodies there is a run with these publications in which a
      call returns the old body although the origin serves the new one throughout that call. */
  lemma WeakEtagsReturnStaleBodies(origin: Origin, history: seq<Publication>, i: nat, j: nat, url: Url)
    returns (states: seq<State>, events: seq<Event>, n: nat)
    requires i <= j <= |history| && Reused(origin, history, i, j, url)
    ensures IsRunOf(states, events, origin, history)
    ensures n + 3 < |states| && events[n..n + 3] == CallEvents(1, url, NotModified)
    ensures states[n].origin == states[n + 1].origin == states[n + 3].origin == OriginAfter(origin, history[..j])
    ensures 1 in states[n + 3].calls
    ensures states[n + 3].calls[1] == Returned(url, Some(OriginAfter(origin, history[..i])[url].body), n + 1)
  {
    var x, a := LateRuns(origin, history, i, j, url);
    n := |a|;
    var y := CallOn(x, a, 1, url, NotModified);
    var b := a + CallEvents(1, url, NotModified);
    states := PublishOn(y, b, history[j..]);
    events := b + PublishAll(history[j..]);
    LastPublications(a, url, history[..j], history[j..]);
    assert history[..j] + history[j..] == history;
    MovesIsRun(states, events, origin);
    assert events[n..n + 3] == b[n..];
  }

  lemma LastPublications(a: seq<Event>, url: Url, before: seq<Publication>, after: seq<Publication>)
    requires Publications(a) == before
    ensures Publications(a + CallEvents(1, url, NotModified) + PublishAll(after)) == before + after
  {
    CallPublishesNothing(a, 1, url, NotModified);
    PublishAllPublishes(a + CallEvents(1, url, NotModified), after);
  }

  lemma MovesIsRun(states: seq<State>, events: seq<Event>, origin: Origin)
    requires Moves(states, events) && states[0] == Start(origin)
    ensures IsRun(states, events)
  {
    forall k | 0 <= k < |events| ensures Enabled(states[k], events[k]) && states[k + 1] == Next(states[k], events[k]) {
      MovesAt(states, events, k);
    }
  }

  /** The cache is right for an origin and what it publishes exactly if no entity tag is used for two bodies: then every
      body that any call returns in any run with these publications was current when the call was answered. */
  lemma CurrentExactlyIfStrong(origin: Origin, history: seq<Publication>)
    ensures StrongHistory(origin, history) <==>
      forall states, events :: IsRunOf(states, events, origin, history) ==> ReturnsAreCurrent(states, events)
  {
    if StrongHistory(origin, history) {
      forall states, events | IsRunOf(states, events, origin, history)
        ensures ReturnsAreCurrent(states, events)
      {
        StrongHistoryOfRun(states, events);
        StrongReturnsAreCurrent(states, events);
      }
    } else {
      var i, j, url := ReusedTag(origin, history);
      var states, events, n := WeakEtagsReturnStaleBodies(origin, history, i, j, url);
      assert !ReturnIsCurrent(states, events, n + 3, 1);
    }
  }

  lemma StrongReturnsAreCurrent(states: seq<State>, events: seq<Event>)
    requires IsRun(states, events) && StrongEtags(states)
    ensures ReturnsAreCurrent(states, events)
  {
    forall n, call | 0 <= n < |states| && call in states[n].calls ensures ReturnIsCurrent(states, events, n, call) {
      if states[n].calls[call].Returned? && states[n].calls[call].body.Some? {
        ReturnedBodyWasCurrent(states, events, n, call);
      }
    }
  }

  lemma ReusedTag(origin: Origin, history: seq<Publication>) returns (i: nat, j: nat, url: Url)
    requires !StrongHistory(origin, history)
    ensures i <= j <= |history| && Reused(origin, history, i, j, url)
  {
    var k, l, u :| 0 <= k <= |history| && 0 <= l <= |history| &&
                   !Agree(OriginAfter(origin, history[..k]), OriginAfter(origin, history[..l]), u);
    i, j, url := if k <= l then k else l, if k <= l then l else k, u;
  }

  // ---------------------------------------------------------------- how long entries live

  predicate Aged(s: State) {
    && (forall url :: url in s.entries ==>
          s.ticker.Some? && s.ticker.value - PURGE_DURATION <= s.entries[url].lastUsed <= s.now)
    && (s.ticker.Some? ==> s.ticker.value <= s.now <= s.ticker.value + TICKER_DURATION)
    && (forall c :: c in s.calls && !s.calls[c].Returned? && s.calls[c].cached.Some? ==> s.ticker.Some?)
    && (forall c :: c in s.calls && s.calls[c].Answered? && s.calls[c].response.NotModified? ==>
       s.calls[c].cached.Some?)
  }

  /** No call waits for the lock as long as an entry lives. */
  predicate Prompt(states: seq<State>, events: seq<Event>)
    requires |states| == |events| + 1
  {
    forall i :: 0 <= i < |events| && events[i].Leave? ==> states[i].now - events[i].stamp <= PURGE_DURATION
  }

  lemma {:induction false} RunAges(states: seq<State>, events: seq<Event>, n: nat)
    requires IsRun(states, events) && Prompt(states, events) && n < |states|
    ensures Aged(states[n])
  {
    if n != 0 {
      RunAges(states, events, n - 1);
      assert states[n] == Next(states[n - 1], events[n - 1]);
    }
  }

  /** As long as the purge task keeps its rhythm, no entry stays unused for more than twelve and a half
      hours, however often purged entries are written back by late callers. */
  lemma EntriesExpire(states: seq<State>, events: seq<Event>, n: nat, url: Url)
    requires IsRun(states, events) && Prompt(states, events) && n < |states| && url in states[n].entries
    ensures states[n].now - states[n].entries[url].lastUsed <= 12 * 3600 + 30 * 60
  {
    RunAges(states, events, n);
  }
}
