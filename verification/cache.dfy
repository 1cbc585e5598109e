/**
 * The edge function's response cache: a body younger than the time-to-live
 * is served without fetching; otherwise the candidates are tried, a success
 * replaces the cache, and a failure falls back to the previous body, however
 * old, or answers 502 when there is none. Time and fetch results are inputs.
 */
module StallsCache {

  import opened Options
  import Booths
  import Urls
  import Upstream

  const TtlMs: int := 15000

  /** `cacheBody` (held as the shape it serializes) and `cacheAt`. */
  datatype Cache = Cache(body: Option<Booths.Shape>, at: int)

  const Initial: Cache := Cache(None, 0)

  /** Which `x-debug-from` path a 200 reply took. */
  datatype Origin = FromCache | Fresh | Stale

  datatype Reply =
    | MissingSource                               // 500
    | Served(shape: Booths.Shape, origin: Origin) // 200
    | Unavailable(message: string)                // 502

  /** One request: the configured links (`raw == ""` when unset), the `gid` query value,
      the clock at arrival and after the fetch, and what each URL fetches to. */
  datatype Request = Request(
    raw: string, edit: string, gidParam: Option<string>,
    now: int, doneAt: int, fetch: string -> Upstream.Fetched)

  datatype Outcome = Outcome(cache: Cache, reply: Reply, fetched: seq<string>)

  /** `url.searchParams.get("gid") || "0"`. */
  function RequestGid(p: Option<string>): (g: string)
    ensures g != ""
    ensures p.Some? && p.value != "" ==> g == p.value
    ensures p.None? || p.value == "" ==> g == "0"
  {
    match p
    case Some(v) => if v == "" then "0" else v
    case None => "0"
  }

  predicate IsFresh(c: Cache, now: int) {
    c.body.Some? && now - c.at < TtlMs
  }

  function Candidates(c: Urls.UrlCodec, req: Request): seq<string> {
    Upstream.FunctionsCandidates(c, Upstream.Source(req.raw, req.edit, RequestGid(req.gidParam)))
  }

  /** `onRequestGet`, without the sharing of an in-flight fetch between concurrent requests. */
  function Handle(cache: Cache, c: Urls.UrlCodec, req: Request): (o: Outcome)
    ensures req.raw == "" ==> o == Outcome(cache, MissingSource, [])
    ensures req.raw != "" && IsFresh(cache, req.now) ==> o == Outcome(cache, Served(cache.body.value, FromCache), [])
    ensures o.cache != cache ==> !IsFresh(cache, req.now) && o.cache.at == req.doneAt && o.reply.Served? && o.reply.origin == Fresh
    ensures o.reply.Unavailable? <==> req.raw != "" && cache.body.None? && o.cache == cache && !o.reply.Served?
    ensures cache.body.Some? ==> o.cache.body.Some?
    ensures o.reply.Served? ==> o.cache.body == Some(o.reply.shape)
  {
    if req.raw == "" then Outcome(cache, MissingSource, [])
    else if IsFresh(cache, req.now) then Outcome(cache, Served(cache.body.value, FromCache), [])
    else Refresh(cache, c, req)
  }

  /** A miss: the first acceptable candidate refreshes the cache; otherwise the
      stale body is served, or 502 when there is none. */
  function Refresh(cache: Cache, c: Urls.UrlCodec, req: Request): (o: Outcome)
    ensures o.cache != cache ==> o.cache.at == req.doneAt && o.reply.Served? && o.reply.origin == Fresh
    ensures o.reply.Unavailable? <==> cache.body.None? && o.cache == cache && !o.reply.Served?
    ensures !o.reply.MissingSource? && (o.reply.Served? ==> o.reply.origin != FromCache)
    ensures cache.body.Some? ==> o.cache.body.Some?
    ensures o.reply.Served? ==> o.cache.body == Some(o.reply.shape)
  {
    var cands := Candidates(c, req);
    match Upstream.FirstAcceptedIndex(cands, req.fetch, Upstream.FunctionsAccepts)
    case Some(i) =>
      var shape := Booths.NormalizeToShape(req.fetch(cands[i]).body);
      Outcome(Cache(Some(shape), req.doneAt), Served(shape, Fresh), cands[..i + 1])
    case None =>
      Outcome(cache, if cache.body.Some? then Served(cache.body.value, Stale) else Unavailable("upstream not available"), cands)
  }

  /** A miss with an acceptable candidate fetches the candidates in order up to the
      first acceptable one and caches its shape, stamped with the completion time. */
  lemma RefreshHit(cache: Cache, c: Urls.UrlCodec, req: Request, i: nat)
    requires req.raw != "" && !IsFresh(cache, req.now)
    requires Upstream.FirstAcceptedIndex(Candidates(c, req), req.fetch, Upstream.FunctionsAccepts) == Some(i)
    ensures i < |Candidates(c, req)|
    ensures var cands := Candidates(c, req);
      var shape := Booths.NormalizeToShape(req.fetch(cands[i]).body);
      Handle(cache, c, req) == Outcome(Cache(Some(shape), req.doneAt), Served(shape, Fresh), cands[..i + 1])
  {
    var cands := Candidates(c, req);
    var shape := Booths.NormalizeToShape(req.fetch(cands[i]).body);
    assert Refresh(cache, c, req) == Outcome(Cache(Some(shape), req.doneAt), Served(shape, Fresh), cands[..i + 1]);
    assert Handle(cache, c, req) == Refresh(cache, c, req);
  }

  /** A miss with no acceptable candidate fetches every candidate, keeps the cache,
      and serves the stale body or fails. */
  lemma RefreshMiss(cache: Cache, c: Urls.UrlCodec, req: Request)
    requires req.raw != "" && !IsFresh(cache, req.now)
    requires Upstream.FirstAcceptedIndex(Candidates(c, req), req.fetch, Upstream.FunctionsAccepts).None?
    ensures Handle(cache, c, req)
         == Outcome(cache, if cache.body.Some? then Served(cache.body.value, Stale) else Unavailable("upstream not available"), Candidates(c, req))
  {
    assert Handle(cache, c, req) == Refresh(cache, c, req);
  }

  /** The cache after a run of requests, with every reply and every fetched URL. */
  function Serve(cache: Cache, c: Urls.UrlCodec, reqs: seq<Request>): (r: (Cache, seq<Reply>, seq<string>))
    ensures |r.1| == |reqs|
    decreases |reqs|
  {
    if |reqs| == 0 then (cache, [], [])
    else
      var o := Handle(cache, c, reqs[0]);
      var rest := Serve(o.cache, c, reqs[1..]);
      (rest.0, [o.reply] + rest.1, o.fetched + rest.2)
  }

  /** Once a body has been cached, no later request is answered 502. */
  lemma {:induction false} NoUnavailableAfterSuccess(cache: Cache, c: Urls.UrlCodec, reqs: seq<Request>)
    requires cache.body.Some?
    ensures forall i :: 0 <= i < |reqs| ==> !Serve(cache, c, reqs).1[i].Unavailable?
    decreases |reqs|
  {
    if |reqs| > 0 {
      var o := Handle(cache, c, reqs[0]);
      NoUnavailableAfterSuccess(o.cache, c, reqs[1..]);
      ServeFirst(cache, c, reqs, o);
      var replies := Serve(cache, c, reqs).1;
      var rest := Serve(o.cache, c, reqs[1..]).1;
      forall i | 0 <= i < |reqs| ensures !replies[i].Unavailable? {
        if i > 0 {
          assert replies[i] == rest[i - 1];
        }
      }
    }
  }

  /** A run's replies are the first request's reply followed by the rest of the run's. */
  lemma ServeFirst(cache: Cache, c: Urls.UrlCodec, reqs: seq<Request>, o: Outcome)
    requires |reqs| > 0 && o == Handle(cache, c, reqs[0])
    ensures Serve(cache, c, reqs).1 == [o.reply] + Serve(o.cache, c, reqs[1..]).1
    ensures Serve(cache, c, reqs).0 == Serve(o.cache, c, reqs[1..]).0
    ensures Serve(cache, c, reqs).2 == o.fetched + Serve(o.cache, c, reqs[1..]).2
  {
  }

  /** Requests arriving within the time-to-live of the cached body fetch nothing and get that body. */
  lemma {:induction false} NoFetchWithinTtl(cache: Cache, c: Urls.UrlCodec, reqs: seq<Request>)
    requires cache.body.Some?
    requires forall i :: 0 <= i < |reqs| ==> reqs[i].raw != "" && reqs[i].now - cache.at < TtlMs
    ensures Serve(cache, c, reqs).0 == cache
    ensures Serve(cache, c, reqs).2 == []
    ensures forall i :: 0 <= i < |reqs| ==> Serve(cache, c, reqs).1[i] == Served(cache.body.value, FromCache)
    decreases |reqs|
  {
    if |reqs| > 0 {
      var o := Handle(cache, c, reqs[0]);
      NoFetchWithinTtl(cache, c, reqs[1..]);
      ServeFirst(cache, c, reqs, o);
      var rest := Serve(cache, c, reqs[1..]).1;
      assert forall i :: 1 <= i < |reqs| ==> Serve(cache, c, reqs).1[i] == rest[i - 1];
    }
  }

  /** Two requests: after a fresh fetch, a second one inside the time-to-live fetches nothing. */
  lemma SecondRequestHitsCache(cache: Cache, c: Urls.UrlCodec, first: Request, second: Request)
    requires Handle(cache, c, first).reply.Served? && Handle(cache, c, first).reply.origin == Fresh
    requires second.raw != "" && second.now - first.doneAt < TtlMs
    ensures var o1 := Handle(cache, c, first);
      var o2 := Handle(o1.cache, c, second);
      o2.fetched == [] && o2.reply == Served(o1.reply.shape, FromCache) && o2.cache == o1.cache
  {
    var o1 := Handle(cache, c, first);
    assert o1.cache != cache || o1.cache.at == first.doneAt by {
      if o1.cache == cache {
        assert IsFresh(cache, first.now) || Upstream.FirstAcceptedIndex(Candidates(c, first), first.fetch, Upstream.FunctionsAccepts).Some?;
      }
    }
  }

  /** After a success, an upstream that fails every candidate still gets the old body, served as stale. */
  lemma StaleFallback(cache: Cache, c: Urls.UrlCodec, first: Request, later: Request)
    requires Handle(cache, c, first).reply.Served?
    requires later.raw != "" && !IsFresh(Handle(cache, c, first).cache, later.now)
    requires forall u :: !Upstream.FunctionsAccepts(later.fetch(u))
    ensures var o1 := Handle(cache, c, first);
      Handle(o1.cache, c, later).reply == Served(o1.reply.shape, Stale)
  {
    var o1 := Handle(cache, c, first);
    var cands := Candidates(c, later);
    assert Upstream.FirstAcceptedIndex(cands, later.fetch, Upstream.FunctionsAccepts).None?;
  }
}
