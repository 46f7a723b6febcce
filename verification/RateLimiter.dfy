/** The per-IP sliding-window rate limiter of the gateway, and the naive log of accepted requests it stands for. */
module RateLimiter {
  import opened Prelude

  const WINDOW_MILLIS := 60_000

  // ----- The naive specification ----------------------------------------------------------------

  /** How many entries of the log lie in the closed interval. */
  function CountIn(log: seq<int>, lo: int, hi: int): nat {
    if log == [] then 0
    else
      var last := log[|log| - 1];
      CountIn(log[..|log| - 1], lo, hi) + (if lo <= last <= hi then 1 else 0)
  }

  /** The count is the number of positions whose entry lies in the interval, however the log is ordered. */
  lemma {:induction false} CountInIs(log: seq<int>, lo: int, hi: int)
    ensures CountIn(log, lo, hi) == |set i | 0 <= i < |log| && lo <= log[i] <= hi|
  {
    var now := set i | 0 <= i < |log| && lo <= log[i] <= hi;
    if log != [] {
      var front, last := log[..|log| - 1], |log| - 1;
      CountInIs(front, lo, hi);
      var before := set i | 0 <= i < |front| && lo <= front[i] <= hi;
      assert now == before + (if lo <= log[last] <= hi then {last} else {});
    }
  }

  /** Accept unless `max` requests were already accepted in the last window, both ends included. */
  predicate Allowed(log: seq<int>, now: int, max: int) {
    CountIn(log, now - 60_000, now) < max
  }

  ghost predicate Nondecreasing(log: seq<int>) {
    forall i, j :: 0 <= i < j < |log| ==> log[i] <= log[j]
  }

  /** No closed interval of one window length holds more than `max` accepted requests. */
  ghost predicate WindowBounded(log: seq<int>, max: int) {
    forall lo, hi :: hi <= lo + 60_000 ==> CountIn(log, lo, hi) <= Max(max, 0)
  }

  lemma {:induction false} CountWidens(log: seq<int>, lo: int, hi: int, lo': int, hi': int)
    requires lo' <= lo && hi <= hi'
    ensures CountIn(log, lo, hi) <= CountIn(log, lo', hi')
  {
    if log != [] {
      CountWidens(log[..|log| - 1], lo, hi, lo', hi');
    }
  }

  lemma {:induction false} CountUpTo(log: seq<int>, lo: int, hi: int, hi': int)
    requires hi <= hi' && forall i :: 0 <= i < |log| ==> log[i] <= hi
    ensures CountIn(log, lo, hi) == CountIn(log, lo, hi')
  {
    if log != [] {
      CountUpTo(log[..|log| - 1], lo, hi, hi');
    }
  }

  /** Accepting only what the naive rule allows keeps every window within the limit. */
  lemma AcceptKeepsBound(log: seq<int>, now: int, max: int)
    requires WindowBounded(log, max) && Allowed(log, now, max)
    requires forall i :: 0 <= i < |log| ==> log[i] <= now
    ensures WindowBounded(log + [now], max)
  {
    forall lo, hi | hi <= lo + WINDOW_MILLIS ensures CountIn(log + [now], lo, hi) <= Max(max, 0) {
      assert (log + [now])[..|log|] == log;
      assert CountIn(log, lo, hi) <= Max(max, 0);
      if lo <= now <= hi {
        CountUpTo(log, lo, now, hi);
        CountWidens(log, lo, now, now - WINDOW_MILLIS, now);
      }
    }
  }

  /** When everything before `k` is outside the interval and everything from `k` on inside, the count is what is left. */
  lemma {:induction false} CountSuffix(log: seq<int>, k: nat, lo: int, hi: int)
    requires k <= |log|
    requires forall i :: 0 <= i < k ==> log[i] < lo
    requires forall i :: k <= i < |log| ==> lo <= log[i] <= hi
    ensures CountIn(log, lo, hi) == |log| - k
  {
    if log != [] {
      var n := |log| - 1;
      CountSuffix(log[..n], if k <= n then k else n, lo, hi);
    }
  }

  // ----- What a deque remembers of the log --------------------------------------------------------

  /** The deque is the end of the log, and what it has forgotten is outside every window from now on. */
  ghost predicate Summary(deque: seq<int>, log: seq<int>, touched: int, clock: int) {
    && touched <= clock
    && |deque| <= |log|
    && deque == log[|log| - |deque|..]
    && Nondecreasing(log)
    && (forall i :: 0 <= i < |log| - |deque| ==> log[i] < clock - WINDOW_MILLIS)
    && (forall i :: 0 <= i < |log| ==> log[i] <= touched)
  }

  lemma TimePasses(deque: seq<int>, log: seq<int>, touched: int, clock: int, now: int)
    requires Summary(deque, log, touched, clock) && clock <= now
    ensures Summary(deque, log, touched, now) && Summary(deque, log, now, now)
  {
  }

  /** Two idle minutes make the whole log irrelevant. */
  lemma IdleForgets(deque: seq<int>, log: seq<int>, touched: int, clock: int, now: int)
    requires Summary(deque, log, touched, clock) && clock <= now && touched + 120_000 <= now
    ensures Summary([], log, now, now)
  {
  }

  lemma Evict(times: seq<int>, log: seq<int>, now: int)
    requires Summary(times, log, now, now) && times != [] && times[0] < now - WINDOW_MILLIS
    ensures Summary(times[1..], log, now, now)
  {
  }

  /** The deque without the timestamps in front that are older than the cutoff. */
  function Trim(times: seq<int>, cutoff: int): seq<int> {
    if times != [] && times[0] < cutoff then Trim(times[1..], cutoff) else times
  }

  lemma TrimStep(times: seq<int>, cutoff: int)
    ensures times != [] && times[0] < cutoff ==> Trim(times[1..], cutoff) == Trim(times, cutoff)
    ensures times == [] || times[0] >= cutoff ==> Trim(times, cutoff) == times
  {
  }

  /** Trimming keeps the summary, and what is left is what the naive rule counts. */
  lemma {:induction false} TrimSummary(times: seq<int>, log: seq<int>, now: int)
    requires Summary(times, log, now, now)
    ensures Summary(Trim(times, now - WINDOW_MILLIS), log, now, now)
    ensures CountIn(log, now - WINDOW_MILLIS, now) == |Trim(times, now - WINDOW_MILLIS)|
    ensures forall max :: Allowed(log, now, max) <==> |Trim(times, now - WINDOW_MILLIS)| < max
  {
    hide Summary;
    if times != [] && times[0] < now - WINDOW_MILLIS {
      Evict(times, log, now);
      TrimSummary(times[1..], log, now);
    } else {
      SizeIsCount(times, log, now);
    }
  }

  /** Once nothing old is left in front, the size of the deque is the naive count. */
  lemma SizeIsCount(times: seq<int>, log: seq<int>, now: int)
    requires Summary(times, log, now, now) && (times != [] ==> times[0] >= now - WINDOW_MILLIS)
    ensures CountIn(log, now - WINDOW_MILLIS, now) == |times|
  {
    CountSuffix(log, |log| - |times|, now - WINDOW_MILLIS, now);
  }

  lemma Record(times: seq<int>, log: seq<int>, now: int)
    requires Summary(times, log, now, now)
    ensures Summary(times + [now], log + [now], now, now)
  {
  }

  // ----- The filter -------------------------------------------------------------------------------

  class RateLimiterFilter<Ip(==,!new)> {
    const maxRequestsPerWindow: int
    /** The cache: one deque of timestamps per address. */
    var requestLog: map<Ip, seq<int>>
    /** When the cache entry of an address was last touched. */
    var lastAccess: map<Ip, int>

    /** Every request ever accepted, per address, oldest first. */
    ghost var accepted: map<Ip, seq<int>>
    /** The latest clock reading that reached the lock of each address. Different addresses have different locks. */
    ghost var clocks: map<Ip, int>

    constructor (maxRequestsPerWindow: int)
      ensures Valid() && this.maxRequestsPerWindow == maxRequestsPerWindow && clocks == map[]
      ensures forall ip :: Log(ip) == []
    {
      this.maxRequestsPerWindow := maxRequestsPerWindow;
      requestLog, lastAccess, accepted, clocks := map[], map[], map[], map[];
    }

    ghost function Log(ip: Ip): seq<int>
      reads this
    {
      Get(accepted, ip)
    }

    function Deque(ip: Ip): seq<int>
      reads this
    {
      Get(requestLog, ip)
    }

    ghost predicate Valid()
      reads this
    {
      && requestLog.Keys == lastAccess.Keys
      && AllSummarised(requestLog, lastAccess, accepted, clocks)
      && AllBounded(accepted, maxRequestsPerWindow)
    }

    /**
     * One request, with whatever clock reading it brings to the lock. Unless that reading is behind an
     * earlier one of the same address, the decision is the naive one and the log stays summarised.
     */
    method DoFilter(ip: Ip, now: int) returns (allowed: bool)
      modifies this
      ensures allowed <==> |Trim(old(Deque(ip)), now - 60_000)| < maxRequestsPerWindow
      ensures Deque(ip) == Trim(old(Deque(ip)), now - 60_000) + (if allowed then [now] else [])
      ensures Log(ip) == old(Log(ip)) + (if allowed then [now] else [])
      ensures clocks == old(clocks)[ip := now]
      ensures forall other :: other != ip ==> Log(other) == old(Log(other)) && Deque(other) == old(Deque(other))
      ensures old(Valid()) && (ip in old(clocks) ==> old(clocks)[ip] <= now) ==>
                Valid() && (allowed <==> Allowed(old(Log(ip)), now, maxRequestsPerWindow))
    {
      hide AllSummarised, AllBounded, Trim, Allowed;
      ghost var all := Deque(ip);
      ghost var longer := Longer(accepted, ip, now, |Trim(all, now - WINDOW_MILLIS)| < maxRequestsPerWindow);
      if Valid() && (ip in clocks ==> clocks[ip] <= now) {
        RequestInOrder(requestLog, lastAccess, accepted, clocks, ip, now, maxRequestsPerWindow);
      }
      var times := Deque(ip);
      var cutoff := now - WINDOW_MILLIS;
      while times != [] && times[0] < cutoff
        invariant Trim(times, cutoff) == Trim(all, cutoff)
        modifies {}
      {
        TrimStep(times, cutoff);
        times := times[1..];
      }
      TrimStep(times, cutoff);
      allowed := |times| < maxRequestsPerWindow;
      if allowed {
        times := times + [now];
      }
      requestLog := requestLog[ip := times];
      lastAccess := lastAccess[ip := now];
      accepted := longer;
      clocks := clocks[ip := now];
    }

    /** The cache drops the deque of an address that has been idle for two minutes; no later decision changes. */
    method Expire(ip: Ip, now: int)
      requires Valid() && ip in lastAccess && lastAccess[ip] + 120_000 <= now
      modifies this
      ensures Valid() && clocks == old(clocks)[ip := now]
      ensures ip !in requestLog
      ensures accepted == old(accepted)
    {
      hide AllSummarised, AllBounded;
      EntryExpired(requestLog, lastAccess, accepted, clocks, ip, now);
      requestLog := requestLog - {ip};
      lastAccess := lastAccess - {ip};
      clocks := clocks[ip := now];
    }
  }

  // ----- The cache and the logs of all addresses ---------------------------------------------------

  function Get<Ip>(logs: map<Ip, seq<int>>, ip: Ip): seq<int> {
    if ip in logs then logs[ip] else []
  }

  /** What the cache knows of one address; before its first request there is nothing to know. */
  ghost predicate Summarised<Ip>(
    deques: map<Ip, seq<int>>, lastAccess: map<Ip, int>, logs: map<Ip, seq<int>>, clocks: map<Ip, int>, ip: Ip)
  {
    if ip in clocks then
      Summary(Get(deques, ip), Get(logs, ip), clocks[ip], clocks[ip]) && (ip in lastAccess ==> lastAccess[ip] == clocks[ip])
    else Get(deques, ip) == [] && Get(logs, ip) == [] && ip !in lastAccess
  }

  ghost predicate AllSummarised<Ip(!new)>(
    deques: map<Ip, seq<int>>, lastAccess: map<Ip, int>, logs: map<Ip, seq<int>>, clocks: map<Ip, int>)
  {
    forall ip :: Summarised(deques, lastAccess, logs, clocks, ip)
  }

  ghost predicate AllBounded<Ip(!new)>(logs: map<Ip, seq<int>>, max: int) {
    forall ip :: WindowBounded(Get(logs, ip), max)
  }

  lemma DequeSummarised<Ip(!new)>(
    deques: map<Ip, seq<int>>, lastAccess: map<Ip, int>, logs: map<Ip, seq<int>>, clocks: map<Ip, int>, ip: Ip, now: int)
    requires AllSummarised(deques, lastAccess, logs, clocks) && (ip in clocks ==> clocks[ip] <= now)
    ensures Summary(Get(deques, ip), Get(logs, ip), now, now)
  {
    assert Summarised(deques, lastAccess, logs, clocks, ip);
    if ip in clocks {
      hide Summary;
      TimePasses(Get(deques, ip), Get(logs, ip), clocks[ip], clocks[ip], now);
    }
  }

  /** The log of one address is this one, and the others are as before. */
  ghost predicate LogChanged<Ip(!new)>(logs: map<Ip, seq<int>>, after: map<Ip, seq<int>>, ip: Ip, log: seq<int>) {
    Get(after, ip) == log && forall other :: other != ip ==> Get(after, other) == Get(logs, other)
  }

  /** Rewriting what is known of one address leaves the others alone. */
  lemma AddressRewritten<Ip(!new)>(
    deques: map<Ip, seq<int>>, lastAccess: map<Ip, int>, logs: map<Ip, seq<int>>, clocks: map<Ip, int>,
    ip: Ip, times: seq<int>, log: seq<int>, now: int, after: map<Ip, seq<int>>)
    requires AllSummarised(deques, lastAccess, logs, clocks) && Summary(times, log, now, now)
    requires LogChanged(logs, after, ip, log)
    ensures AllSummarised(deques[ip := times], lastAccess[ip := now], after, clocks[ip := now])
  {
    hide Summary;
    var deques', lastAccess', clocks' := deques[ip := times], lastAccess[ip := now], clocks[ip := now];
    forall other ensures Summarised(deques', lastAccess', after, clocks', other) {
      assert Summarised(deques, lastAccess, logs, clocks, other);
    }
  }

  lemma RequestAccepted<Ip(!new)>(logs: map<Ip, seq<int>>, ip: Ip, times: seq<int>, now: int, max: int)
    requires AllBounded(logs, max) && Summary(times, Get(logs, ip), now, now) && Allowed(Get(logs, ip), now, max)
    ensures Summary(times + [now], Get(logs, ip) + [now], now, now)
    ensures AllBounded(logs[ip := Get(logs, ip) + [now]], max)
  {
    hide Summary, WindowBounded, Allowed;
    LogBefore(times, Get(logs, ip), now);
    assert WindowBounded(Get(logs, ip), max);
    AcceptKeepsBound(Get(logs, ip), now, max);
    Record(times, Get(logs, ip), now);
    var logs' := logs[ip := Get(logs, ip) + [now]];
    forall other ensures WindowBounded(Get(logs', other), max) {
      assert WindowBounded(Get(logs, other), max);
    }
  }

  /** The logs after a request. */
  ghost function Longer<Ip(!new)>(logs: map<Ip, seq<int>>, ip: Ip, now: int, allowed: bool): (after: map<Ip, seq<int>>)
    ensures LogChanged(logs, after, ip, Get(logs, ip) + (if allowed then [now] else []))
  {
    if allowed then logs[ip := Get(logs, ip) + [now]] else logs
  }

  /** A request in order: the trimmed deque decides as the naive rule does, and everything stays summarised and bounded. */
  lemma RequestInOrder<Ip(!new)>(
    deques: map<Ip, seq<int>>, lastAccess: map<Ip, int>, logs: map<Ip, seq<int>>, clocks: map<Ip, int>,
    ip: Ip, now: int, max: int)
    requires AllSummarised(deques, lastAccess, logs, clocks) && AllBounded(logs, max)
    requires ip in clocks ==> clocks[ip] <= now
    ensures var times := Trim(Get(deques, ip), now - WINDOW_MILLIS);
      var allowed := |times| < max;
      var after := Longer(logs, ip, now, allowed);
      && (allowed <==> Allowed(Get(logs, ip), now, max))
      && AllSummarised(deques[ip := if allowed then times + [now] else times], lastAccess[ip := now], after, clocks[ip := now])
      && AllBounded(after, max)
  {
    hide Summary, AllSummarised, AllBounded, Trim, Allowed;
    var log, times := Get(logs, ip), Trim(Get(deques, ip), now - WINDOW_MILLIS);
    DequeSummarised(deques, lastAccess, logs, clocks, ip, now);
    TrimSummary(Get(deques, ip), log, now);
    if |times| < max {
      RequestAccepted(logs, ip, times, now, max);
      AddressRewritten(deques, lastAccess, logs, clocks, ip, times + [now], log + [now], now, logs[ip := log + [now]]);
    } else {
      AddressRewritten(deques, lastAccess, logs, clocks, ip, times, log, now, logs);
    }
  }

  lemma EntryExpired<Ip(!new)>(
    deques: map<Ip, seq<int>>, lastAccess: map<Ip, int>, logs: map<Ip, seq<int>>, clocks: map<Ip, int>, ip: Ip, now: int)
    requires AllSummarised(deques, lastAccess, logs, clocks)
    requires ip in lastAccess && lastAccess[ip] + 120_000 <= now
    ensures AllSummarised(deques - {ip}, lastAccess - {ip}, logs, clocks[ip := now])
  {
    hide Summary;
    assert Summarised(deques, lastAccess, logs, clocks, ip);
    IdleForgets(Get(deques, ip), Get(logs, ip), lastAccess[ip], clocks[ip], now);
    var deques', lastAccess', clocks' := deques - {ip}, lastAccess - {ip}, clocks[ip := now];
    forall other ensures Summarised(deques', lastAccess', logs, clocks', other) {
      assert Summarised(deques, lastAccess, logs, clocks, other);
    }
  }

  lemma LogBefore(deque: seq<int>, log: seq<int>, now: int)
    requires Summary(deque, log, now, now)
    ensures forall i :: 0 <= i < |log| ==> log[i] <= now
  {
  }
}
