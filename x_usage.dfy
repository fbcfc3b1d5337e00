/** The ledger of X API requests (convex/xUsage.ts): an append-only log, and the count of
    the requests in the last fifteen minutes against a limit of fifty. */
module XUsage {
  import opened Wrappers
  import opened Database

  /** `RATE_WINDOW_MS`: fifteen minutes. */
  const RateWindowMs: int := 15 * 60 * 1000
  /** `RATE_LIMIT`. */
  const RateLimit: nat := 50

  /** `logRequest`: appends one entry stamped `now`. */
  method LogRequest(db: Db, endpoint: string, tweetId: Option<string>, status: XRequestStatus,
                    responseStatus: Option<int>, message: Option<string>, resetAt: Option<int>, now: Time)
    requires db.Valid()
    modifies db`xRequests
    ensures db.Valid()
    ensures db.xRequests == old(db.xRequests) + [XRequest(endpoint, tweetId, status, responseStatus, message, resetAt, now)]
  {
    db.xRequests := db.xRequests + [XRequest(endpoint, tweetId, status, responseStatus, message, resetAt, now)];
  }

  /** The `byCreatedAt` index from `since` on. */
  function Since(requests: seq<XRequest>, since: int): seq<XRequest>
    decreases |requests|
  {
    if requests == [] then []
    else
      var last := requests[|requests| - 1];
      Since(requests[..|requests| - 1], since) + (if last.createdAt >= since then [last] else [])
  }

  /** The number of entries stamped `since` or later. */
  function CountSince(requests: seq<XRequest>, since: int): nat
    decreases |requests|
  {
    if requests == [] then 0
    else CountSince(requests[..|requests| - 1], since) + (if requests[|requests| - 1].createdAt >= since then 1 else 0)
  }

  lemma {:induction false} SinceCount(requests: seq<XRequest>, since: int)
    ensures |Since(requests, since)| == CountSince(requests, since)
    ensures forall r | r in Since(requests, since) :: r in requests && r.createdAt >= since
    ensures forall r | r in requests && r.createdAt >= since :: r in Since(requests, since)
    decreases |requests|
  {
    if requests != [] {
      var init := requests[..|requests| - 1];
      SinceCount(init, since);
      assert requests == init + [requests[|requests| - 1]];
    }
  }

  /** The `reduce` step: a truthy `resetAt` larger than the running maximum replaces it. */
  function MaxReset(max: int, item: XRequest): int {
    if item.resetAt.Some? && item.resetAt.value != 0 && item.resetAt.value > max then item.resetAt.value else max
  }

  /** `requests.reduce(MaxReset, 0)`. */
  function FoldMaxReset(requests: seq<XRequest>): int
    decreases |requests|
  {
    if requests == [] then 0 else MaxReset(FoldMaxReset(requests[..|requests| - 1]), requests[|requests| - 1])
  }

  /** The fold followed by `|| null`: zero becomes null. */
  function LastResetAt(requests: seq<XRequest>): Option<int> {
    var m := FoldMaxReset(requests);
    if m == 0 then None else Some(m)
  }

  /** A positive reset time of an entry. */
  ghost predicate HasPositiveReset(r: XRequest) {
    r.resetAt.Some? && r.resetAt.value > 0
  }

  /** The fold is the largest positive `resetAt`, or zero when there is none. */
  lemma {:induction false} FoldMaxResetIsMax(requests: seq<XRequest>)
    ensures FoldMaxReset(requests) >= 0
    ensures forall k | 0 <= k < |requests| && HasPositiveReset(requests[k]) :: requests[k].resetAt.value <= FoldMaxReset(requests)
    ensures FoldMaxReset(requests) > 0 ==> exists k | 0 <= k < |requests| :: requests[k].resetAt == Some(FoldMaxReset(requests))
    decreases |requests|
  {
    if requests != [] {
      var init := requests[..|requests| - 1];
      FoldMaxResetIsMax(init);
      assert forall k | 0 <= k < |init| :: requests[k] == init[k];
      if FoldMaxReset(requests) > 0 && FoldMaxReset(requests) == FoldMaxReset(init) {
        var k :| 0 <= k < |init| && init[k].resetAt == Some(FoldMaxReset(init));
        assert requests[k] == init[k];
      }
    }
  }

  /** `lastResetAt` is null exactly when no entry has a positive `resetAt`; otherwise it is
      the largest one, and some entry has it. */
  lemma LastResetAtIsLargestPositive(requests: seq<XRequest>)
    ensures LastResetAt(requests).None? <==> forall k | 0 <= k < |requests| :: !HasPositiveReset(requests[k])
    ensures LastResetAt(requests).Some? ==>
              && (exists k | 0 <= k < |requests| :: requests[k].resetAt == LastResetAt(requests))
              && (forall k | 0 <= k < |requests| && HasPositiveReset(requests[k]) ::
                    requests[k].resetAt.value <= LastResetAt(requests).value)
  {
    FoldMaxResetIsMax(requests);
  }

  /** The answer of `countRecent`. */
  datatype RecentCount = RecentCount(total: nat, lastResetAt: Option<int>)

  /** `countRecent`. */
  function CountRecent(db: Db, since: int): RecentCount
    reads db
  {
    var requests := Since(db.xRequests, since);
    RecentCount(|requests|, LastResetAt(requests))
  }

  /** `total` counts the entries stamped `since` or later, and `lastResetAt` is the largest
      positive `resetAt` among them. */
  lemma CountRecentSpec(db: Db, since: int)
    ensures CountRecent(db, since).total == CountSince(db.xRequests, since)
    ensures var requests := Since(db.xRequests, since);
            CountRecent(db, since).lastResetAt.None? <==> forall r | r in requests :: !HasPositiveReset(r)
    ensures CountRecent(db, since).lastResetAt.Some? ==>
              && (exists r | r in db.xRequests && r.createdAt >= since :: r.resetAt == CountRecent(db, since).lastResetAt)
              && (forall r | r in db.xRequests && r.createdAt >= since && HasPositiveReset(r) ::
                    r.resetAt.value <= CountRecent(db, since).lastResetAt.value)
  {
    var requests := Since(db.xRequests, since);
    SinceCount(db.xRequests, since);
    LastResetAtIsLargestPositive(requests);
    if CountRecent(db, since).lastResetAt.Some? {
      var k :| 0 <= k < |requests| && requests[k].resetAt == CountRecent(db, since).lastResetAt;
      assert requests[k] in requests;
      forall r | r in db.xRequests && r.createdAt >= since && HasPositiveReset(r)
        ensures r.resetAt.value <= CountRecent(db, since).lastResetAt.value
      {
        var j :| 0 <= j < |requests| && requests[j] == r;
      }
    }
  }

  /** A logged request stamped inside the window adds one to the count. */
  lemma LogRequestCounted(requests: seq<XRequest>, entry: XRequest, since: int)
    ensures CountSince(requests + [entry], since) == CountSince(requests, since) + (if entry.createdAt >= since then 1 else 0)
  {
    assert (requests + [entry])[..|requests|] == requests;
  }

  /** The answer of `getUsage`. */
  datatype Usage = Usage(windowMinutes: nat, limit: nat, total: nat, rateLimited: nat, remaining: nat,
                         lastResetAt: Option<int>)

  /** The number of rate-limited entries. */
  function CountRateLimited(requests: seq<XRequest>): nat
    decreases |requests|
  {
    if requests == [] then 0
    else CountRateLimited(requests[..|requests| - 1]) + (if requests[|requests| - 1].status == RateLimited then 1 else 0)
  }

  lemma {:induction false} RateLimitedAtMostAll(requests: seq<XRequest>)
    ensures CountRateLimited(requests) <= |requests|
    ensures CountRateLimited(requests) == |requests| <==> forall k | 0 <= k < |requests| :: requests[k].status == RateLimited
    decreases |requests|
  {
    if requests != [] {
      var init := requests[..|requests| - 1];
      RateLimitedAtMostAll(init);
      assert forall k | 0 <= k < |init| :: requests[k] == init[k];
    }
  }

  /** `getUsage` at time `now`. */
  function GetUsage(db: Db, now: Time): Usage
    reads db
  {
    var requests := Since(db.xRequests, now - RateWindowMs);
    Usage(RateWindowMs / 60000, RateLimit, |requests|, CountRateLimited(requests),
          if RateLimit >= |requests| then RateLimit - |requests| else 0, LastResetAt(requests))
  }

  /** The window is fifteen minutes and the limit fifty; `remaining` is what is left of
      the limit, never negative, and zero once fifty requests were made in the window;
      rate-limited requests are some of those counted. */
  lemma GetUsageSpec(db: Db, now: Time)
    ensures var u := GetUsage(db, now);
            && u.windowMinutes == 15 && u.limit == 50
            && u.total == CountSince(db.xRequests, now - 900000)
            && u.remaining <= 50
            && (u.remaining == 0 <==> u.total >= 50)
            && (u.total <= 50 ==> u.total + u.remaining == 50)
            && u.rateLimited <= u.total
            && u.lastResetAt == CountRecent(db, now - 900000).lastResetAt
  {
    SinceCount(db.xRequests, now - RateWindowMs);
    RateLimitedAtMostAll(Since(db.xRequests, now - RateWindowMs));
  }
}
