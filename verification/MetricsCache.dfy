/**
The cache in front of the scraper (metricHTTP, cacheGet and cacheSet in pkg/remotemetrics/http.go):
responses are kept for a short time under a key made of cluster, path and selector, and concurrent
requests with the same key share one scrape.
*/
module MetricsCache {
  import opened Wrappers

  /** `selector` is the canonical text of the node selector, empty for none. */
  datatype Request = Request(cluster: string, path: string, selector: string)

  const PATHS := ["metrics", "metrics/cadvisor", "metrics/resource", "metrics/probes"]

  function Key(r: Request): string { r.cluster + "/" + r.path + "?" + r.selector }

  /** A request that reaches the cache: the router gives one segment for the cluster, and the path is checked. */
  predicate Routed(r: Request) { '/' !in r.cluster && r.path in PATHS }

  lemma {:induction false} SplitAtFirst(a: string, b: string, c: string, d: string, sep: char)
    requires sep !in a && sep !in c && a + [sep] + b == c + [sep] + d
    ensures a == c && b == d
  {
    var s := a + [sep] + b;
    assert s[|a|] == sep && s[|c|] == sep by { assert (c + [sep] + d)[|c|] == sep; }
    assert s[..|a|] == a && s[..|c|] == c;
    assert s[|a| + 1..] == b && s[|c| + 1..] == d;
  }

  lemma {:induction false} PathHasNoMark(path: string)
    requires path in PATHS
    ensures '?' !in path
  {}

  /** Two requests that reach the cache share a key exactly when they are the same. */
  lemma {:induction false} KeyIsInjective(r: Request, q: Request)
    requires Routed(r) && Routed(q)
    ensures Key(r) == Key(q) <==> r == q
  {
    if Key(r) == Key(q) {
      var rr, qq := r.path + "?" + r.selector, q.path + "?" + q.selector;
      assert Key(r) == r.cluster + "/" + rr && Key(q) == q.cluster + "/" + qq;
      SplitAtFirst(r.cluster, rr, q.cluster, qq, '/');
      PathHasNoMark(r.path);
      PathHasNoMark(q.path);
      SplitAtFirst(r.path, r.selector, q.path, q.selector, '?');
    }
  }

  /** It takes the segment rule: a cluster name with a slash can take over the key of another request. */
  lemma {:induction false} SlashBreaksKeys()
    ensures Key(Request("a", "metrics", "b/metrics?s")) == Key(Request("a/metrics?b", "metrics", "s"))
  {}

  // ----- the cache itself

  datatype Outcome = Data(text: string) | Failure(message: string)

  const TTL := 15_000_000_000

  const ERROR_TTL := 5_000_000_000

  function Lifetime(o: Outcome): int { if o.Data? then TTL else ERROR_TTL }

  /** `flight` is the scrape the entry comes from. */
  datatype Entry = Entry(outcome: Outcome, expires: int, flight: nat)

  type Entries = map<string, Entry>

  predicate Fresh(c: Entries, key: string, now: int) { key in c && now < c[key].expires }

  /** The cache after a lookup: an expired entry is dropped. */
  function AfterGet(c: Entries, key: string, now: int): Entries { if Fresh(c, key, now) then c else c - {key} }

  /** The cache after a store: everything expired is dropped. */
  function AfterSet(c: Entries, key: string, e: Entry, now: int): Entries {
    (map k | k in c && now < c[k].expires :: c[k])[key := e]
  }

  class Cache {
    var entries: Entries

    constructor () ensures entries == map[] { entries := map[]; }

    method CacheGet(key: string, now: int) returns (r: Option<Entry>)
      modifies this
      ensures entries == AfterGet(old(entries), key, now)
      ensures forall k :: k in entries <==> k in old(entries) && (k == key ==> now < old(entries)[k].expires)
      ensures forall k <- entries :: entries[k] == old(entries)[k]
      ensures r == if Fresh(old(entries), key, now) then Some(old(entries)[key]) else None
    {
      if key !in entries {
        assert entries - {key} == entries;
        return None;
      }
      if !(now < entries[key].expires) {
        entries := entries - {key};
        return None;
      }
      r := Some(entries[key]);
    }

    method CacheSet(key: string, e: Entry, now: int)
      modifies this
      ensures entries == AfterSet(old(entries), key, e, now)
      ensures forall k <- entries :: k != key ==> now < entries[k].expires
    {
      ghost var c := entries;
      var todo := entries.Keys;
      while todo != {}
        invariant todo <= c.Keys
        invariant forall k <- entries :: k in c && entries[k] == c[k]
        invariant forall k <- c :: k in entries <==> k in todo || now < c[k].expires
      {
        var k :| k in todo;
        if !(now < entries[k].expires) { entries := entries - {k}; }
        todo := todo - {k};
      }
      assert entries == map k | k in c && now < c[k].expires :: c[k];
      entries := entries[key := e];
    }
  }

  // ----- requests in parallel

  /** A scrape: for whom it was started, once it is done its outcome and the time, and when it stopped being shared. */
  datatype Flight = Flight(request: Request, outcome: Option<Outcome>, at: int, closed: Option<int>)

  datatype Place = Missed(request: Request) | Waiting(request: Request, flight: nat, since: int)

  /** A response that was served: from the cache, or from the scrape that the request waited for since some time. */
  datatype Response = Response(request: Request, outcome: Outcome, flight: nat, time: int, since: Option<int>)

  datatype State = State(cache: Entries, flights: seq<Flight>, inflight: map<string, nat>, requests: map<nat, Place>,
                         responses: seq<Response>, now: int)

  datatype Event =
    | Hit(asked: Request)
    | Miss(thread: nat, request: Request)
    | Join(joiner: nat)
    | Scraped(flight: nat, outcome: Outcome)
    | Store(stored: nat)
    | Close(closed: nat)
    | Return(waiter: nat)
    | Tick(elapsed: nat)

  predicate Done(s: State, f: nat) { f < |s.flights| && s.flights[f].outcome.Some? }

  predicate Open(s: State, f: nat) {
    f < |s.flights| && Key(s.flights[f].request) in s.inflight && s.inflight[Key(s.flights[f].request)] == f
  }

  predicate Possible(s: State, e: Event) {
    match e
    case Hit(r) => Routed(r) && Fresh(s.cache, Key(r), s.now)
    case Miss(t, r) => Routed(r) && t !in s.requests && !Fresh(s.cache, Key(r), s.now)
    case Join(t) => t in s.requests && s.requests[t].Missed?
    case Scraped(f, _) => Open(s, f) && !Done(s, f)
    case Store(f) => Open(s, f) && Done(s, f)
    case Close(f) => Open(s, f) && Done(s, f)
    case Return(t) => t in s.requests && s.requests[t].Waiting? && Done(s, s.requests[t].flight)
    case Tick(_) => true
  }

  function JoinStep(s: State, t: nat, r: Request): State {
    if Key(r) in s.inflight then s.(requests := s.requests[t := Waiting(r, s.inflight[Key(r)], s.now)])
    else s.(flights := s.flights + [Flight(r, None, 0, None)], inflight := s.inflight[Key(r) := |s.flights|],
            requests := s.requests[t := Waiting(r, |s.flights|, s.now)])
  }

  function Step(s: State, e: Event): State
    requires Possible(s, e)
  {
    match e
    case Hit(r) =>
      var entry := s.cache[Key(r)];
      s.(responses := s.responses + [Response(r, entry.outcome, entry.flight, s.now, None)])
    case Miss(t, r) => s.(cache := AfterGet(s.cache, Key(r), s.now), requests := s.requests[t := Missed(r)])
    case Join(t) => JoinStep(s, t, s.requests[t].request)
    case Scraped(f, o) => s.(flights := s.flights[f := s.flights[f].(outcome := Some(o), at := s.now)])
    case Store(f) =>
      var fl := s.flights[f];
      s.(cache := AfterSet(s.cache, Key(fl.request), Entry(fl.outcome.value, fl.at + Lifetime(fl.outcome.value), f),
                           s.now))
    case Close(f) =>
      s.(inflight := s.inflight - {Key(s.flights[f].request)},
         flights := s.flights[f := s.flights[f].(closed := Some(s.now))])
    case Return(t) =>
      var p := s.requests[t];
      s.(requests := s.requests - {t},
         responses := s.responses + [Response(p.request, s.flights[p.flight].outcome.value, p.flight, s.now,
                                              Some(p.since))])
    case Tick(d) => s.(now := s.now + d)
  }

  ghost predicate IsRun(ss: seq<State>, es: seq<Event>) {
    |ss| == |es| + 1 && forall i :: 0 <= i < |es| ==> Possible(ss[i], es[i]) && ss[i + 1] == Step(ss[i], es[i])
  }

  predicate Start(s: State) {
    s.cache == map[] && s.flights == [] && s.inflight == map[] && s.requests == map[] && s.responses == []
  }

  ghost predicate CacheOk(s: State) {
    forall k <- s.cache :: (var e := s.cache[k];
                            Done(s, e.flight) && Key(s.flights[e.flight].request) == k &&
                                s.flights[e.flight].outcome.value == e.outcome
                            && e.expires == s.flights[e.flight].at + Lifetime(e.outcome))
  }

  /** The scrape has stopped being shared before that time. */
  predicate ClosedBefore(f: Flight, time: int) { f.closed.Some? && f.closed.value < time }

  predicate FlightOk(s: State, f: nat)
    requires f < |s.flights|
  {
    var fl := s.flights[f];
    && Routed(fl.request) && (Open(s, f) <==> fl.closed.None?)
    && (fl.closed.Some? ==> Done(s, f) && fl.at <= fl.closed.value <= s.now) && (Done(s, f) ==> fl.at <= s.now)
  }

  ghost predicate FlightsOk(s: State) {
    && (forall f :: 0 <= f < |s.flights| ==> FlightOk(s, f))
    && (forall k <- s.inflight :: s.inflight[k] < |s.flights| && Key(s.flights[s.inflight[k]].request) == k)
  }

  ghost predicate RequestsOk(s: State) { forall t <- s.requests :: RequestOk(s, s.requests[t]) }

  predicate RequestOk(s: State, p: Place) {
    && Routed(p.request)
    && (p.Waiting? ==>
          && p.flight < |s.flights| && s.flights[p.flight].request == p.request
          && p.since <= s.now && !ClosedBefore(s.flights[p.flight], p.since))
  }

  /**
  The response is the outcome of a scrape for the same cluster, path and selector, which was still shared
  when the request joined it or, from the cache, is not older than its lifetime.
  */
  ghost predicate Faithful(s: State, r: Response) {
    && Done(s, r.flight) && s.flights[r.flight].request == r.request && s.flights[r.flight].outcome.value == r.outcome
    && r.time <= s.now
    && match r.since
       case None => r.time - s.flights[r.flight].at < Lifetime(r.outcome)
       case Some(since) => since <= r.time && !ClosedBefore(s.flights[r.flight], since)
  }

  ghost predicate ResponsesOk(s: State) { forall i :: 0 <= i < |s.responses| ==> Faithful(s, s.responses[i]) }

  ghost predicate Inv(s: State) { CacheOk(s) && FlightsOk(s) && RequestsOk(s) && ResponsesOk(s) }

  lemma {:induction false} HitKeeps(s: State, r: Request)
    requires Inv(s) && Possible(s, Hit(r))
    ensures Inv(Step(s, Hit(r)))
  {
    var u := Step(s, Hit(r));
    var e := s.cache[Key(r)];
    assert FlightOk(s, e.flight);
    KeyIsInjective(s.flights[e.flight].request, r);
    forall g | 0 <= g < |u.flights| ensures FlightOk(u, g) { assert FlightOk(s, g); }
    forall i | 0 <= i < |u.responses|
      ensures Faithful(u, u.responses[i])
    {
      if i < |s.responses| { assert Faithful(s, s.responses[i]); }
    }
  }

  lemma {:induction false} TakeOffKeeps(s: State, t: nat)
    requires Inv(s) && Possible(s, Join(t)) && Key(s.requests[t].request) !in s.inflight
    ensures Inv(Step(s, Join(t)))
  {
    var u := Step(s, Join(t));
    assert forall f :: 0 <= f < |s.flights| ==> u.flights[f] == s.flights[f];
    forall f | 0 <= f < |u.flights| ensures FlightOk(u, f) { if f < |s.flights| { assert FlightOk(s, f); } }
    forall i | 0 <= i < |u.responses| ensures Faithful(u, u.responses[i]) { assert Faithful(s, s.responses[i]); }
  }

  lemma {:induction false} BoardKeeps(s: State, t: nat)
    requires Inv(s) && Possible(s, Join(t)) && Key(s.requests[t].request) in s.inflight
    ensures Inv(Step(s, Join(t)))
  {
    var u, r := Step(s, Join(t)), s.requests[t].request;
    var f := s.inflight[Key(r)];
    assert FlightOk(s, f) && Open(s, f);
    KeyIsInjective(s.flights[f].request, r);
    forall g | 0 <= g < |u.flights| ensures FlightOk(u, g) { assert FlightOk(s, g); }
    forall i | 0 <= i < |u.responses| ensures Faithful(u, u.responses[i]) { assert Faithful(s, s.responses[i]); }
  }

  lemma {:induction false} ScrapedKeeps(s: State, f: nat, o: Outcome)
    requires Inv(s) && Possible(s, Scraped(f, o))
    ensures Inv(Step(s, Scraped(f, o)))
  {
    var u := Step(s, Scraped(f, o));
    assert forall g :: 0 <= g < |s.flights| ==>
             u.flights[g].request == s.flights[g].request && (g != f ==> u.flights[g] == s.flights[g]);
    forall g | 0 <= g < |u.flights| ensures FlightOk(u, g) { assert FlightOk(s, g); }
    forall i | 0 <= i < |u.responses| ensures Faithful(u, u.responses[i]) { assert Faithful(s, s.responses[i]); }
  }

  lemma {:induction false} CloseKeeps(s: State, f: nat)
    requires Inv(s) && Possible(s, Close(f))
    ensures Inv(Step(s, Close(f)))
  {
    var u := Step(s, Close(f));
    assert FlightOk(s, f);
    forall g | 0 <= g < |u.flights| ensures FlightOk(u, g) { assert FlightOk(s, g); }
    forall i | 0 <= i < |u.responses| ensures Faithful(u, u.responses[i]) { assert Faithful(s, s.responses[i]); }
  }

  lemma {:induction false} ReturnKeeps(s: State, t: nat)
    requires Inv(s) && Possible(s, Return(t))
    ensures Inv(Step(s, Return(t)))
  {
    var u := Step(s, Return(t));
    forall g | 0 <= g < |u.flights| ensures FlightOk(u, g) { assert FlightOk(s, g); }
    forall i | 0 <= i < |u.responses|
      ensures Faithful(u, u.responses[i])
    {
      if i < |s.responses| { assert Faithful(s, s.responses[i]); }
    }
  }

  lemma {:induction false} CacheStepKeeps(s: State, e: Event)
    requires Inv(s) && Possible(s, e) && (e.Miss? || e.Store? || e.Tick?)
    ensures Inv(Step(s, e))
  {
    var u := Step(s, e);
    forall g | 0 <= g < |u.flights| ensures FlightOk(u, g) { assert FlightOk(s, g); }
    forall i | 0 <= i < |u.responses| ensures Faithful(u, u.responses[i]) { assert Faithful(s, s.responses[i]); }
  }

  lemma {:induction false} StepKeepsInv(s: State, e: Event)
    requires Inv(s) && Possible(s, e)
    ensures Inv(Step(s, e))
  {
    match e
    case Hit(r) => HitKeeps(s, r);
    case Join(t) => if Key(s.requests[t].request) in s.inflight { BoardKeeps(s, t); } else { TakeOffKeeps(s, t); }
    case Scraped(f, o) => ScrapedKeeps(s, f, o);
    case Close(f) => CloseKeeps(s, f);
    case Return(t) => ReturnKeeps(s, t);
    case _ => CacheStepKeeps(s, e);
  }

  lemma {:induction false} RunInv(ss: seq<State>, es: seq<Event>, n: nat)
    requires IsRun(ss, es) && Start(ss[0]) && n < |ss|
    ensures Inv(ss[n])
    decreases n
  {
    if n > 0 {
      RunInv(ss, es, n - 1);
      StepKeepsInv(ss[n - 1], es[n - 1]);
    }
  }

  /**
  In every interleaving each response served is the outcome of a scrape of the same cluster, path and
  selector, either still shared when the request joined it or finished less than its lifetime before.
  */
  lemma {:induction false} EveryResponseFaithful(ss: seq<State>, es: seq<Event>, n: nat, i: nat)
    requires IsRun(ss, es) && Start(ss[0]) && n < |ss| && i < |ss[n].responses|
    ensures Faithful(ss[n], ss[n].responses[i])
  {
    RunInv(ss, es, n);
  }

  /** What comes from the cache is data younger than fifteen seconds or a failure younger than five. */
  lemma {:induction false} ServedWhileYoung(ss: seq<State>, es: seq<Event>, n: nat, i: nat)
    requires IsRun(ss, es) && Start(ss[0]) && n < |ss| && i < |ss[n].responses| && ss[n].responses[i].since.None?
    ensures var r := ss[n].responses[i];
            r.flight < |ss[n].flights|
            && var age := r.time - ss[n].flights[r.flight].at;
            (r.outcome.Data? ==> age < 15_000_000_000) && (r.outcome.Failure? ==> age < 5_000_000_000)
  {
    EveryResponseFaithful(ss, es, n, i);
  }

  /** A request that reaches the cache is served from it or goes on to a scrape, and never both. */
  lemma {:induction false} HitOrMiss(s: State, t: nat, r: Request)
    requires Routed(r) && t !in s.requests
    ensures Possible(s, Hit(r)) <==> !Possible(s, Miss(t, r))
  {}

  /** What was stored is served for fifteen seconds after the scrape, or for five if it failed, and no longer. */
  lemma {:induction false} StoredIsServed(s: State, f: nat, now: int)
    requires Inv(s) && Possible(s, Store(f))
    ensures var r, o, at := s.flights[f].request, s.flights[f].outcome.value, s.flights[f].at;
            var u := Step(s, Store(f)).(now := now);
            && (Possible(u, Hit(r)) <==> now - at < if o.Data? then 15_000_000_000 else 5_000_000_000)
            && (Possible(u, Hit(r)) ==>
                  Step(u, Hit(r)).responses == s.responses + [Response(r, o, f, now, None)])
  {
    assert FlightOk(s, f);
  }

  /** Two scrapes under way at once are for different requests. */
  lemma {:induction false} ScrapesDeduplicated(ss: seq<State>, es: seq<Event>, n: nat, f: nat, g: nat)
    requires IsRun(ss, es) && Start(ss[0]) && n < |ss| && f < |ss[n].flights| && g < |ss[n].flights| && f != g
    requires !Done(ss[n], f) && !Done(ss[n], g)
    ensures ss[n].flights[f].request != ss[n].flights[g].request
  {
    RunInv(ss, es, n);
    assert FlightOk(ss[n], f) && FlightOk(ss[n], g);
  }

  /** No other entry that has expired survives a store, and the new one is fresh exactly while its scrape is. */
  lemma {:induction false} NothingExpiredAfterStore(s: State, f: nat, k: string)
    requires Inv(s) && Possible(s, Store(f))
    ensures var u := Step(s, Store(f)); k in u.cache && k != Key(s.flights[f].request) ==> s.now < u.cache[k].expires
    ensures Fresh(Step(s, Store(f)).cache, Key(s.flights[f].request), s.now) <==>
              s.now - s.flights[f].at < Lifetime(s.flights[f].outcome.value)
  {}
}
