/** web/rate_limit.py: a sliding-window limiter that forgets, against one that never does. */
module RateLimit {
  import opened Text

  /** Accepted request times by client address. */
  type Buckets = map<string, seq<real>>

  datatype Limit = Limit(window: real, maxRequests: nat)

  /** Each check and each sweep runs whole, under the lock. */
  datatype Event = Check(ip: string, now: real) | Sweep(now: real)

  /** `[t for t in ts if now - t < RATE_WINDOW_SECONDS]` */
  function Active(ts: seq<real>, now: real, window: real): seq<real> {
    if ts == [] then []
    else (if now - ts[0] < window then [ts[0]] else []) + Active(ts[1..], now, window)
  }

  function Bucket(b: Buckets, ip: string): seq<real> {
    if ip in b then b[ip] else []
  }

  predicate Accepts(b: Buckets, ip: string, now: real, lim: Limit) {
    |Active(Bucket(b, ip), now, lim.window)| < lim.maxRequests
  }

  function After(b: Buckets, e: Event, lim: Limit): Buckets {
    match e
    case Check(ip, now) =>
      b[ip := Active(Bucket(b, ip), now, lim.window) + (if Accepts(b, ip, now, lim) then [now] else [])]
    case Sweep(now) =>
      map ip | ip in b && Active(b[ip], now, lim.window) != [] :: b[ip]
  }

  class RateLimiter {
    var buckets: Buckets
    const lim: Limit

    constructor (lim: Limit)
      ensures buckets == map[] && this.lim == lim
    {
      buckets := map[];
      this.lim := lim;
    }

    method CheckRateLimit(ip: string, now: real) returns (ok: bool)
      modifies this
      ensures ok == Accepts(old(buckets), ip, now, lim)
      ensures ok <==>
                |Recent(if ip in old(buckets) then old(buckets)[ip] else [], now, lim.window)| < lim.maxRequests
      ensures buckets == After(old(buckets), Check(ip, now), lim)
    {
      ActiveCounts(Bucket(buckets, ip), now, lim.window);
      var active := Active(if ip in buckets then buckets[ip] else [], now, lim.window);
      if |active| >= lim.maxRequests {
        assert active == active + [];
        buckets := buckets[ip := active];
        return false;
      }
      active := active + [now];
      buckets := buckets[ip := active];
      return true;
    }

    method SweepExpired(now: real)
      modifies this
      ensures buckets == After(old(buckets), Sweep(now), lim)
      ensures forall ip :: ip in buckets <==> ip in old(buckets) && Recent(old(buckets)[ip], now, lim.window) != {}
      ensures forall ip :: ip in buckets ==> buckets[ip] == old(buckets)[ip]
    {
      var dead := set ip | ip in buckets && Active(buckets[ip], now, lim.window) == [];
      ghost var all := dead;
      while dead != {}
        invariant dead <= all
        invariant buckets == map ip | ip in old(buckets) && (ip !in all || ip in dead) :: old(buckets)[ip]
        decreases |dead|
      {
        var ip :| ip in dead;
        buckets := buckets - {ip};
        dead := dead - {ip};
      }
      ghost var after := After(old(buckets), Sweep(now), lim);
      assert forall ip :: ip in buckets <==> ip in after;
      assert forall ip :: ip in buckets ==> buckets[ip] == after[ip];
      forall ip | ip in old(buckets)
        ensures Active(old(buckets)[ip], now, lim.window) == [] <==> Recent(old(buckets)[ip], now, lim.window) == {}
      {
        ActiveCounts(old(buckets)[ip], now, lim.window);
      }
    }
  }

  // ---- runs ----

  function State(events: seq<Event>, lim: Limit): Buckets {
    if events == [] then map[]
    else After(State(events[..|events| - 1], lim), events[|events| - 1], lim)
  }

  /** The reference limiter: every request of ip ever accepted, decided on that full history. */
  function History(events: seq<Event>, ip: string, lim: Limit): seq<real> {
    if events == [] then []
    else
      var h, e := History(events[..|events| - 1], ip, lim), events[|events| - 1];
      if e.Check? && e.ip == ip && |Active(h, e.now, lim.window)| < lim.maxRequests then h + [e.now] else h
  }

  /** A clock that never runs backwards and has not passed `now`. */
  predicate Monotone(events: seq<Event>, now: real) {
    events == [] || (events[|events| - 1].now <= now && Monotone(events[..|events| - 1], events[|events| - 1].now))
  }

  lemma {:induction false} ActiveAppend(a: seq<real>, b: seq<real>, now: real, window: real)
    ensures Active(a + b, now, window) == Active(a, now, window) + Active(b, now, window)
  {
    if a == [] {
      assert a + b == b;
    } else {
      assert (a + b)[1..] == a[1..] + b;
      ActiveAppend(a[1..], b, now, window);
    }
  }

  /** The requests less than the window ago. */
  ghost function Recent(ts: seq<real>, now: real, window: real): set<nat> {
    set i: nat | i < |ts| && now - ts[i] < window
  }

  lemma {:induction false} RecentSnoc(ts: seq<real>, t: real, now: real, window: real)
    ensures Recent(ts + [t], now, window) == Recent(ts, now, window) + if now - t < window then {|ts|} else {}
  {
    forall i: nat
      ensures i in Recent(ts + [t], now, window) <==> i in Recent(ts, now, window) || (i == |ts| && now - t < window)
    {
    }
  }

  lemma {:induction false} ActiveCounts(ts: seq<real>, now: real, window: real)
    ensures |Active(ts, now, window)| == |Recent(ts, now, window)|
  {
    if ts == [] {
      assert Recent(ts, now, window) == {};
    } else {
      var front, t := ts[..|ts| - 1], ts[|ts| - 1];
      assert ts == front + [t];
      ActiveCounts(front, now, window);
      ActiveAppend(front, [t], now, window);
      RecentSnoc(front, t, now, window);
    }
  }

  /** What was forgotten at `now` is not missed later. */
  lemma {:induction false} ActiveLater(ts: seq<real>, now: real, later: real, window: real)
    requires now <= later
    ensures Active(Active(ts, now, window), later, window) == Active(ts, later, window)
  {
    if ts != [] {
      ActiveLater(ts[1..], now, later, window);
      ActiveAppend(if now - ts[0] < window then [ts[0]] else [], Active(ts[1..], now, window), later, window);
    }
  }

  lemma {:induction false} BucketAgrees(events: seq<Event>, ip: string, now: real, lim: Limit)
    requires Monotone(events, now)
    ensures Active(Bucket(State(events, lim), ip), now, lim.window) == Active(History(events, ip, lim), now, lim.window)
  {
    if events != [] {
      var before, e := events[..|events| - 1], events[|events| - 1];
      var b, h := Bucket(State(before, lim), ip), History(before, ip, lim);
      BucketAgrees(before, ip, e.now, lim);
      ActiveLater(b, e.now, now, lim.window);
      ActiveLater(h, e.now, now, lim.window);
      if e.Check? && e.ip == ip {
        ActiveAppend(Active(b, e.now, lim.window), [e.now], now, lim.window);
        ActiveAppend(h, [e.now], now, lim.window);
        assert Active(b, e.now, lim.window) + [] == Active(b, e.now, lim.window);
      }
    }
  }

  /** The times at which the limiter accepted a request of ip in a run. */
  function Accepted(events: seq<Event>, ip: string, lim: Limit): seq<real> {
    if events == [] then []
    else
      var before, e := events[..|events| - 1], events[|events| - 1];
      Accepted(before, ip, lim)
      + if e.Check? && e.ip == ip && Accepts(State(before, lim), ip, e.now, lim) then [e.now] else []
  }

  /** The limiter accepts exactly what the reference accepts. */
  lemma {:induction false} AcceptedIsHistory(events: seq<Event>, ip: string, now: real, lim: Limit)
    requires Monotone(events, now)
    ensures Accepted(events, ip, lim) == History(events, ip, lim)
  {
    if events != [] {
      var before, e := events[..|events| - 1], events[|events| - 1];
      AcceptedIsHistory(before, ip, e.now, lim);
      BucketAgrees(before, ip, e.now, lim);
    }
  }

  /** In every interleaving of checks and sweeps, a request is accepted exactly when fewer than
      maxRequests of all the requests ever accepted from its address lie within the window. */
  lemma LimiterIsFullHistory(events: seq<Event>, ip: string, now: real, lim: Limit)
    requires Monotone(events, now)
    ensures Accepts(State(events, lim), ip, now, lim)
       <==> |Recent(Accepted(events, ip, lim), now, lim.window)| < lim.maxRequests
  {
    ActiveCounts(Accepted(events, ip, lim), now, lim.window);
    AcceptedIsHistory(events, ip, now, lim);
    BucketAgrees(events, ip, now, lim);
  }

  // ---- consequences ----

  /** The checks of one address: no sweeps, no other addresses. */
  function ChecksOf(events: seq<Event>, ip: string): seq<Event> {
    if events == [] then []
    else
      var e := events[|events| - 1];
      ChecksOf(events[..|events| - 1], ip) + (if e.Check? && e.ip == ip then [e] else [])
  }

  lemma {:induction false} HistoryOfChecks(events: seq<Event>, ip: string, now: real, lim: Limit)
    requires Monotone(events, now)
    ensures History(events, ip, lim) == History(ChecksOf(events, ip), ip, lim)
    ensures Monotone(ChecksOf(events, ip), now)
  {
    if events != [] {
      var before, e := events[..|events| - 1], events[|events| - 1];
      HistoryOfChecks(before, ip, e.now, lim);
      var own := ChecksOf(before, ip);
      if e.Check? && e.ip == ip {
        assert (own + [e])[..|own|] == own;
      } else {
        assert own + [] == own;
        MonotoneLater(own, e.now, now);
      }
    }
  }

  lemma MonotoneLater(events: seq<Event>, now: real, later: real)
    requires Monotone(events, now) && now <= later
    ensures Monotone(events, later)
  {
  }

  /** Sweeps and other addresses never change a decision. */
  lemma DecisionsAreLocal(events: seq<Event>, ip: string, now: real, lim: Limit)
    requires Monotone(events, now)
    ensures Accepts(State(events, lim), ip, now, lim) <==> Accepts(State(ChecksOf(events, ip), lim), ip, now, lim)
  {
    HistoryOfChecks(events, ip, now, lim);
    BucketAgrees(events, ip, now, lim);
    BucketAgrees(ChecksOf(events, ip), ip, now, lim);
  }

  /** t lies in the half-open window of the given length at a: closed on the left, or on the right. */
  predicate InWindow(a: real, length: real, left: bool, t: real) {
    if left then a <= t < a + length else a < t <= a + length
  }

  ghost function InsideOf(ts: seq<real>, a: real, length: real, left: bool): set<nat> {
    set i: nat | i < |ts| && InWindow(a, length, left, ts[i])
  }

  function Within(ts: seq<real>, a: real, length: real, left: bool): seq<real> {
    if ts == [] then []
    else (if InWindow(a, length, left, ts[0]) then [ts[0]] else []) + Within(ts[1..], a, length, left)
  }

  lemma {:induction false} WithinAppend(ts: seq<real>, t: real, a: real, length: real, left: bool)
    ensures Within(ts + [t], a, length, left)
         == Within(ts, a, length, left) + (if InWindow(a, length, left, t) then [t] else [])
  {
    if ts == [] {
      assert ts + [t] == [t] && [t][1..] == [];
    } else {
      var first, last := if InWindow(a, length, left, ts[0]) then [ts[0]] else [],
                         if InWindow(a, length, left, t) then [t] else [];
      assert (ts + [t])[1..] == ts[1..] + [t] && (ts + [t])[0] == ts[0];
      WithinAppend(ts[1..], t, a, length, left);
      AppendAssoc(first, Within(ts[1..], a, length, left), last);
    }
  }

  lemma {:induction false} InsideSnoc(ts: seq<real>, t: real, a: real, length: real, left: bool)
    ensures InsideOf(ts + [t], a, length, left)
         == InsideOf(ts, a, length, left) + if InWindow(a, length, left, t) then {|ts|} else {}
  {
    forall i: nat
      ensures i in InsideOf(ts + [t], a, length, left)
         <==> i in InsideOf(ts, a, length, left) || (i == |ts| && InWindow(a, length, left, t))
    {
    }
  }

  lemma {:induction false} WithinCounts(ts: seq<real>, a: real, length: real, left: bool)
    ensures |Within(ts, a, length, left)| == |InsideOf(ts, a, length, left)|
  {
    if ts == [] {
      assert InsideOf(ts, a, length, left) == {};
    } else {
      var front, t := ts[..|ts| - 1], ts[|ts| - 1];
      assert ts == front + [t];
      WithinCounts(front, a, length, left);
      WithinAppend(front, t, a, length, left);
      InsideSnoc(front, t, a, length, left);
    }
  }

  lemma {:induction false} WithinIsActive(ts: seq<real>, a: real, now: real, window: real, left: bool)
    requires InWindow(a, window, left, now)
    ensures |Within(ts, a, window, left)| <= |Active(ts, now, window)|
  {
    if ts != [] {
      WithinIsActive(ts[1..], a, now, window, left);
    }
  }

  lemma {:induction false} HistoryStaysWithin(events: seq<Event>, ip: string, lim: Limit, a: real, left: bool)
    ensures |Within(History(events, ip, lim), a, lim.window, left)| <= lim.maxRequests
  {
    if events != [] {
      var before, e := events[..|events| - 1], events[|events| - 1];
      var h := History(before, ip, lim);
      HistoryStaysWithin(before, ip, lim, a, left);
      if e.Check? && e.ip == ip && |Active(h, e.now, lim.window)| < lim.maxRequests {
        WithinAppend(h, e.now, a, lim.window, left);
        if InWindow(a, lim.window, left, e.now) {
          WithinIsActive(h, a, e.now, lim.window, left);
        }
      }
    }
  }

  /** No half-open window as long as the limiter's holds more than maxRequests accepted requests. */
  lemma NoWindowOverrun(events: seq<Event>, ip: string, now: real, lim: Limit, a: real, left: bool)
    requires Monotone(events, now)
    ensures |InsideOf(Accepted(events, ip, lim), a, lim.window, left)| <= lim.maxRequests
  {
    WithinCounts(Accepted(events, ip, lim), a, lim.window, left);
    AcceptedIsHistory(events, ip, now, lim);
    HistoryStaysWithin(events, ip, lim, a, left);
  }
}
