/** The fixed-window, per-client request limiter: a process-wide table from
    client key to a request count and the time at which that count resets. */
module RateLimiter {
  import opened Collections
  import opened Http

  /** One minute, in milliseconds. */
  const WindowSize: int := 60 * 1000
  const MaxRequests: int := 50
  const UnknownClient := "unknown"

  /** The per-client record: requests seen in the current window and the end of that window. */
  datatype RequestCount = RequestCount(count: int, resetTime: int)

  /** The text before the first comma, as `split(",")[0]` yields it. */
  function BeforeFirstComma(s: string): (r: string)
    ensures r <= s
    ensures ',' !in r
    ensures r == s || s[|r|] == ','
  {
    if s == [] || s[0] == ',' then [] else [s[0]] + BeforeFirstComma(s[1..])
  }

  /** The client key: the first address of `x-forwarded-for`, or "unknown" when
      the header is absent or empty (an empty string is falsy). */
  function ClientKey(forwardedFor: Option<string>): (r: string)
    ensures forwardedFor.None? || forwardedFor == Some("") ==> r == UnknownClient
    ensures forwardedFor.Some? && forwardedFor.value != "" ==>
      r == BeforeFirstComma(forwardedFor.value) && r <= forwardedFor.value && ',' !in r
  {
    if forwardedFor.Some? && forwardedFor.value != "" then BeforeFirstComma(forwardedFor.value)
    else UnknownClient
  }

  /** The record for a client after one more request at time `now`, given the
      record stored for it, if any. */
  function Hit(stored: Option<RequestCount>, now: int): (r: RequestCount)
    ensures stored.None? ==> r == RequestCount(1, now + WindowSize)
    ensures stored.Some? && now <= stored.value.resetTime ==>
      r == RequestCount(stored.value.count + 1, stored.value.resetTime)
    ensures stored.Some? && now > stored.value.resetTime ==> r == RequestCount(1, now + WindowSize)
  {
    var current := stored.GetOr(RequestCount(0, now + WindowSize));
    if now > current.resetTime then RequestCount(1, now + WindowSize)
    else current.(count := current.count + 1)
  }

  /** A request is refused when the count, after it is recorded, exceeds the maximum. */
  predicate TooMany(r: RequestCount) {
    r.count > MaxRequests
  }

  /** The record after a run of requests at the given times. */
  function HitAll(stored: Option<RequestCount>, times: seq<int>): Option<RequestCount>
    decreases |times|
  {
    if times == [] then stored else HitAll(Some(Hit(stored, times[0])), times[1..])
  }

  /** Requests that all arrive no later than the stored reset time each add one
      to the count and never move the reset time. */
  lemma {:induction false} WithinWindowCounts(r: RequestCount, times: seq<int>)
    requires forall i :: 0 <= i < |times| ==> times[i] <= r.resetTime
    ensures HitAll(Some(r), times) == Some(RequestCount(r.count + |times|, r.resetTime))
    decreases |times|
  {
    if times != [] {
      WithinWindowCounts(RequestCount(r.count + 1, r.resetTime), times[1..]);
    }
  }

  /** For a client with no record, the n-th request of a burst that ends within
      one window of the first is refused exactly when n exceeds 50: the first
      fifty pass and the fifty-first fails. */
  lemma WindowAdmitsFifty(first: int, later: seq<int>)
    requires forall i :: 0 <= i < |later| ==> first <= later[i] <= first + WindowSize
    ensures HitAll(None, [first] + later) == Some(RequestCount(1 + |later|, first + WindowSize))
    ensures TooMany(HitAll(None, [first] + later).value) <==> 1 + |later| > 50
  {
    var start := RequestCount(1, first + WindowSize);
    calc {
      HitAll(None, [first] + later);
      { assert ([first] + later)[0] == first && ([first] + later)[1..] == later; }
      HitAll(Some(Hit(None, first)), later);
      HitAll(Some(start), later);
      { WithinWindowCounts(start, later); }
      Some(RequestCount(1 + |later|, first + WindowSize));
    }
  }

  class Limiter {
    /** `ipRequestCounts`, one record per client key. */
    var ipRequestCounts: map<string, RequestCount>

    /** An empty table, as at process start. */
    constructor ()
      ensures ipRequestCounts == map[]
    {
      ipRequestCounts := map[];
    }

    /** `rateLimiter`: records the request, then answers 429 when the client is
        over the limit and nothing otherwise. A refused request is still counted,
        and no other client's record changes. */
    method Check(forwardedFor: Option<string>, now: int) returns (refusal: Option<Response>)
      modifies this
      ensures var key := ClientKey(forwardedFor);
        var stored := if key in old(ipRequestCounts) then Some(old(ipRequestCounts)[key]) else None;
        ipRequestCounts == old(ipRequestCounts)[key := Hit(stored, now)]
      ensures refusal.Some? <==> TooMany(ipRequestCounts[ClientKey(forwardedFor)])
      ensures refusal.Some? ==> refusal.value == Response(429, "Too many requests")
    {
      var ip := ClientKey(forwardedFor);
      var requestCount := if ip in ipRequestCounts then ipRequestCounts[ip] else RequestCount(0, now + WindowSize);
      if now > requestCount.resetTime {
        requestCount := requestCount.(count := 1);
        requestCount := requestCount.(resetTime := now + WindowSize);
      } else {
        requestCount := requestCount.(count := requestCount.count + 1);
      }
      ipRequestCounts := ipRequestCounts[ip := requestCount];
      if requestCount.count > MaxRequests {
        return Some(Response(429, "Too many requests"));
      }
      return None;
    }
  }
}
