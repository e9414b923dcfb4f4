/** The fixed-window rate limiter. One address alone is a counter with a reset time; the
    middleware keeps one per address and sweeps stale ones. Times are reals. */
module RateLimit {
  import opened Wrappers

  datatype Entry = Entry(count: int, reset: real)

  const LIMIT: int := 60
  const WINDOW: real := 60.0
  const MAX_ENTRIES: nat := 5000
  const STALE_AFTER: real := 120.0

  // ----- one address alone ----------------------------------------------------------------

  /** The entry after a request at time `now`. */
  function Touch(e: Option<Entry>, now: real): Entry {
    if e.None? || now > e.value.reset then Entry(1, now + WINDOW) else e.value.(count := e.value.count + 1)
  }

  predicate Allowed(e: Entry) {
    e.count <= LIMIT
  }

  /** The entry after requests at these times. */
  function After(ts: seq<real>): Option<Entry>
    decreases |ts|
  {
    if ts == [] then None else Some(Touch(After(ts[..|ts| - 1]), ts[|ts| - 1]))
  }

  predicate Admitted(ts: seq<real>, i: nat)
    requires i < |ts|
  {
    Allowed(Touch(After(ts[..i]), ts[i]))
  }

  predicate NonDecreasing(ts: seq<real>) {
    forall i, j | 0 <= i < j < |ts| :: ts[i] <= ts[j]
  }

  predicate StartsWindow(ts: seq<real>, i: nat)
    requires i < |ts|
  {
    After(ts[..i]).None? || ts[i] > After(ts[..i]).value.reset
  }

  lemma {:induction false} WindowCounts(ts: seq<real>, i: nat, j: nat)
    requires NonDecreasing(ts) && i <= j < |ts| && StartsWindow(ts, i) && ts[j] <= ts[i] + WINDOW
    ensures After(ts[..j + 1]) == Some(Entry(j - i + 1, ts[i] + WINDOW))
    decreases j
  {
    assert ts[..j + 1][..j] == ts[..j];
    if j > i {
      WindowCounts(ts, i, j - 1);
    }
  }

  /** In a window exactly the first 60 requests are admitted. */
  lemma WindowExact(ts: seq<real>, i: nat, j: nat)
    requires NonDecreasing(ts) && i <= j < |ts| && StartsWindow(ts, i) && ts[j] <= ts[i] + WINDOW
    ensures Admitted(ts, j) <==> j - i < LIMIT
  {
    WindowCounts(ts, i, j);
    assert ts[..j + 1][..j] == ts[..j];
  }

  /** Admitted requests with a time in [t, t + 60]. */
  function AdmittedIn(ts: seq<real>, t: real): nat
    decreases |ts|
  {
    if ts == [] then 0 else
      var n := |ts| - 1;
      AdmittedIn(ts[..n], t) + if t <= ts[n] <= t + WINDOW && Admitted(ts, n) then 1 else 0
  }

  function Min(a: int, b: int): int {
    if a <= b then a else b
  }

  /** The count so far, by where the current window lies relative to [t, t + 60]: before it,
      begun before it, begun within it, begun behind it. */
  predicate CountFits(admitted: nat, e: Entry, t: real) {
    var start := e.reset - WINDOW;
    if e.reset < t then admitted == 0
    else if start < t then admitted <= Min(e.count, LIMIT) - 1
    else if start <= t + WINDOW then admitted <= LIMIT - 1 + Min(e.count, LIMIT)
    else admitted <= 2 * LIMIT - 1
  }

  lemma TouchKeepsFit(admitted: nat, e: Option<Entry>, t: real, last: real, now: real)
    requires match e case None => admitted == 0
                         case Some(v) => v.count >= 1 && v.reset - WINDOW <= last && CountFits(admitted, v, t)
    requires last <= now
    ensures var e' := Touch(e, now);
            && e'.count >= 1 && e'.reset - WINDOW <= now <= e'.reset
            && CountFits(admitted + if t <= now <= t + WINDOW && Allowed(e') then 1 else 0, e', t)
  {
  }

  lemma {:induction false} RunKeepsFit(ts: seq<real>, t: real)
    requires NonDecreasing(ts) && ts != []
    ensures var e := After(ts).value;
            e.count >= 1 && e.reset - WINDOW <= ts[|ts| - 1] <= e.reset && CountFits(AdmittedIn(ts, t), e, t)
    decreases |ts|
  {
    var n := |ts| - 1;
    if n > 0 {
      RunKeepsFit(ts[..n], t);
      TouchKeepsFit(AdmittedIn(ts[..n], t), After(ts[..n]), t, ts[n - 1], ts[n]);
    } else {
      TouchKeepsFit(0, None, t, ts[n], ts[n]);
    }
  }

  /** Any closed 60-second interval sees at most 119 admitted requests. */
  lemma AtMost119(ts: seq<real>, t: real)
    requires NonDecreasing(ts)
    ensures AdmittedIn(ts, t) <= 2 * LIMIT - 1
  {
    if ts != [] {
      RunKeepsFit(ts, t);
    }
  }

  // ----- and 119 is reached -------------------------------------------------------------------

  function Repeat(x: real, n: nat): seq<real> {
    if n == 0 then [] else Repeat(x, n - 1) + [x]
  }

  lemma {:induction false} Burst(ts: seq<real>, x: real, n: nat, t: real)
    requires After(ts).Some? && x <= After(ts).value.reset && After(ts).value.count + n <= LIMIT && t <= x <= t + WINDOW
    ensures var e := After(ts).value;
            && After(ts + Repeat(x, n)) == Some(Entry(e.count + n, e.reset))
            && AdmittedIn(ts + Repeat(x, n), t) == AdmittedIn(ts, t) + n
    decreases n
  {
    var all := ts + Repeat(x, n);
    if n == 0 {
      assert all == ts;
    } else {
      Burst(ts, x, n - 1, t);
      assert all[..|all| - 1] == ts + Repeat(x, n - 1);
    }
  }

  lemma Extend(ts: seq<real>, x: real, t: real)
    ensures After(ts + [x]) == Some(Touch(After(ts), x))
    ensures AdmittedIn(ts + [x], t)
            == AdmittedIn(ts, t) + if t <= x <= t + WINDOW && Allowed(Touch(After(ts), x)) then 1 else 0
  {
    assert (ts + [x])[..|ts|] == ts;
  }

  lemma FirstWindow(n: nat) returns (ts: seq<real>)
    requires n + 1 == LIMIT
    ensures ts == [0.0] + Repeat(60.0, n)
    ensures After(ts) == Some(Entry(LIMIT, 60.0)) && AdmittedIn(ts, 1.0) == n
  {
    Extend([], 0.0, 1.0);
    assert [] + [0.0] == [0.0];
    ts := [0.0] + Repeat(60.0, n);
    Burst([0.0], 60.0, n, 1.0);
  }

  /** One request at 0 s, 59 at 60 s, 60 at 61 s: [1 s, 61 s] sees 119 admitted. */
  lemma BusyMinute(n: nat) returns (ts: seq<real>)
    requires n + 1 == LIMIT
    ensures NonDecreasing(ts) && AdmittedIn(ts, 1.0) == 2 * LIMIT - 1
  {
    var b := FirstWindow(n);
    Extend(b, 61.0, 1.0);
    ts := b + [61.0] + Repeat(61.0, n);
    Burst(b + [61.0], 61.0, n, 1.0);
    RepeatElements(60.0, n);
    RepeatElements(61.0, n);
  }

  lemma Reaches119()
    ensures exists ts: seq<real> :: NonDecreasing(ts) && AdmittedIn(ts, 1.0) == 2 * LIMIT - 1
  {
    var ts := BusyMinute(59);
  }

  lemma {:induction false} RepeatElements(x: real, n: nat)
    ensures |Repeat(x, n)| == n && forall i | 0 <= i < n :: Repeat(x, n)[i] == x
  {
    if n > 0 {
      RepeatElements(x, n - 1);
    }
  }

  // ----- all addresses, with eviction -----------------------------------------------------------

  datatype Request = Request(ip: string, now: real)

  function Lookup(m: map<string, Entry>, ip: string): Option<Entry> {
    if ip in m then Some(m[ip]) else None
  }

  function Evict(m: map<string, Entry>, cutoff: real): map<string, Entry> {
    map ip | ip in m && m[ip].reset >= cutoff :: m[ip]
  }

  /** One pass through the middleware; a refused request returns before the sweep. */
  function Handle(m: map<string, Entry>, r: Request): map<string, Entry> {
    var e := Touch(Lookup(m, r.ip), r.now);
    var m1 := m[r.ip := e];
    if Allowed(e) && |m1| > MAX_ENTRIES then Evict(m1, r.now - STALE_AFTER) else m1
  }

  function Shared(rs: seq<Request>): map<string, Entry>
    decreases |rs|
  {
    if rs == [] then map[] else Handle(Shared(rs[..|rs| - 1]), rs[|rs| - 1])
  }

  predicate SharedAdmits(rs: seq<Request>, k: nat)
    requires k < |rs|
  {
    Allowed(Touch(Lookup(Shared(rs[..k]), rs[k].ip), rs[k].now))
  }

  predicate ClockForward(rs: seq<Request>) {
    forall i, j | 0 <= i < j < |rs| :: rs[i].now <= rs[j].now
  }

  /** The times of one address's requests. */
  function Times(rs: seq<Request>, ip: string): seq<real>
    decreases |rs|
  {
    if rs == [] then [] else
      var r := rs[|rs| - 1];
      Times(rs[..|rs| - 1], ip) + if r.ip == ip then [r.now] else []
  }

  /** The shared table knows what the address's own limiter knows, or has forgotten an
      entry that is past its reset anyway. */
  predicate Simulates(shared: Option<Entry>, own: Option<Entry>, now: real) {
    shared == own || (shared.None? && own.Some? && own.value.reset < now)
  }

  lemma HandleKeepsSimulation(m: map<string, Entry>, r: Request, ip: string, own: Option<Entry>, last: real)
    requires Simulates(Lookup(m, ip), own, last) && last <= r.now
    ensures Simulates(Lookup(Handle(m, r), ip), if r.ip == ip then Some(Touch(own, r.now)) else own, r.now)
  {
  }

  lemma TouchSimulated(shared: Option<Entry>, own: Option<Entry>, last: real, now: real)
    requires Simulates(shared, own, last) && last <= now
    ensures Touch(shared, now) == Touch(own, now)
  {
  }

  lemma {:induction false} SharedSimulates(rs: seq<Request>, ip: string)
    requires ClockForward(rs) && rs != []
    ensures Simulates(Lookup(Shared(rs), ip), After(Times(rs, ip)), rs[|rs| - 1].now)
    decreases |rs|
  {
    var n := |rs| - 1;
    var front := rs[..n];
    var own := After(Times(front, ip));
    if n > 0 {
      SharedSimulates(front, ip);
      HandleKeepsSimulation(Shared(front), rs[n], ip, own, rs[n - 1].now);
    } else {
      HandleKeepsSimulation(map[], rs[n], ip, None, rs[n].now);
    }
    if rs[n].ip == ip {
      Extend(Times(front, ip), rs[n].now, 0.0);
    } else {
      assert Times(rs, ip) == Times(front, ip);
    }
  }

  /** The middleware, evicting and shared by all addresses, decides each request as a
      limiter would that sees only that address's requests and never forgets. */
  lemma SharedDecidesAlone(rs: seq<Request>, k: nat)
    requires ClockForward(rs) && k < |rs|
    ensures var own := Times(rs[..k], rs[k].ip) + [rs[k].now];
            SharedAdmits(rs, k) <==> Admitted(own, |own| - 1)
  {
    var ts := Times(rs[..k], rs[k].ip);
    assert (ts + [rs[k].now])[..|ts|] == ts;
    if k > 0 {
      SharedSimulates(rs[..k], rs[k].ip);
      TouchSimulated(Lookup(Shared(rs[..k]), rs[k].ip), After(ts), rs[k - 1].now, rs[k].now);
    }
  }

  /** Requests of one address that the middleware admits in [t, t + 60]. */
  function SharedAdmittedIn(rs: seq<Request>, ip: string, t: real): nat
    decreases |rs|
  {
    if rs == [] then 0 else
      var n := |rs| - 1;
      SharedAdmittedIn(rs[..n], ip, t)
      + if rs[n].ip == ip && t <= rs[n].now <= t + WINDOW && SharedAdmits(rs, n) then 1 else 0
  }

  lemma {:induction false} SharedCountsAlone(rs: seq<Request>, ip: string, t: real)
    requires ClockForward(rs)
    ensures SharedAdmittedIn(rs, ip, t) == AdmittedIn(Times(rs, ip), t)
    decreases |rs|
  {
    if rs != [] {
      var n := |rs| - 1;
      var ts := Times(rs[..n], ip);
      SharedCountsAlone(rs[..n], ip, t);
      SharedDecidesAlone(rs, n);
      if rs[n].ip == ip {
        Extend(ts, rs[n].now, t);
        assert (ts + [rs[n].now])[..|ts|] == ts;
      } else {
        assert Times(rs, ip) == ts;
      }
    }
  }

  lemma {:induction false} TimesForward(rs: seq<Request>, ip: string)
    requires ClockForward(rs)
    ensures NonDecreasing(Times(rs, ip))
    ensures rs != [] ==> forall i | 0 <= i < |Times(rs, ip)| :: Times(rs, ip)[i] <= rs[|rs| - 1].now
    decreases |rs|
  {
    if rs != [] {
      TimesForward(rs[..|rs| - 1], ip);
    }
  }

  /** The same bound for the middleware, whatever the other addresses do. */
  lemma SharedAtMost119(rs: seq<Request>, ip: string, t: real)
    requires ClockForward(rs)
    ensures SharedAdmittedIn(rs, ip, t) <= 2 * LIMIT - 1
  {
    SharedCountsAlone(rs, ip, t);
    TimesForward(rs, ip);
    AtMost119(Times(rs, ip), t);
  }

  // ----- what stays in the table -------------------------------------------------------------------

  /** What one request does to the table: its address starts a window of 60 seconds or counts
      on; beyond 5000 addresses an admitted request forgets exactly those whose window ended
      over 120 seconds ago. */
  lemma HandleExactly(m: map<string, Entry>, r: Request)
    ensures
      var m' := Handle(m, r);
      var opens := r.ip !in m || r.now > m[r.ip].reset;
      var admitted := opens || m[r.ip].count < 60;
      var sweeps := admitted && |m.Keys + {r.ip}| > 5000;
      && r.ip in m' && m'[r.ip] == (if opens then Entry(1, r.now + 60.0) else Entry(m[r.ip].count + 1, m[r.ip].reset))
      && forall ip | ip != r.ip ::
           && (ip in m' <==> ip in m && !(sweeps && m[ip].reset < r.now - 120.0))
           && (ip in m' ==> m'[ip] == m[ip])
  {
    var m1 := m[r.ip := Touch(Lookup(m, r.ip), r.now)];
    assert m1.Keys == m.Keys + {r.ip} && |m1| == |m1.Keys|;
  }

  /** Some request of this address opened the window of its entry. */
  ghost predicate Opened(rs: seq<Request>, ip: string, e: Entry) {
    exists i :: 0 <= i < |rs| && rs[i].ip == ip && e.reset == rs[i].now + 60.0
  }

  lemma {:induction false} EveryWindowOpened(rs: seq<Request>, ip: string)
    ensures ip in Shared(rs) ==> Opened(rs, ip, Shared(rs)[ip])
    decreases |rs|
  {
    if rs != [] {
      var n := |rs| - 1;
      EveryWindowOpened(rs[..n], ip);
      HandleExactly(Shared(rs[..n]), rs[n]);
      OpenedLater(rs, n, ip);
    }
  }

  lemma OpenedLater(rs: seq<Request>, n: nat, ip: string)
    requires n < |rs|
    ensures forall e :: Opened(rs[..n], ip, e) ==> Opened(rs, ip, e)
  {
    forall e | Opened(rs[..n], ip, e)
      ensures Opened(rs, ip, e)
    {
      var i :| 0 <= i < n && rs[..n][i].ip == ip && e.reset == rs[..n][i].now + 60.0;
      assert rs[i] == rs[..n][i];
    }
  }

  /** The table is bounded by the traffic of the last minutes: after an admitted request it
      holds at most 5000 addresses, or none but those that made a request in the last 180
      seconds. */
  lemma TableBounded(rs: seq<Request>, k: nat)
    requires k < |rs| && SharedAdmits(rs, k)
    ensures
      var table := Shared(rs[..k + 1]);
      |table| <= 5000
      || forall ip | ip in table :: exists i :: 0 <= i <= k && rs[i].ip == ip && rs[i].now >= rs[k].now - 180.0
  {
    var table := Shared(rs[..k + 1]);
    assert rs[..k + 1][..k] == rs[..k];
    var before := Shared(rs[..k]);
    HandleExactly(before, rs[k]);
    var all := before.Keys + {rs[k].ip};
    assert all == table.Keys + (all - table.Keys) && |table| == |table.Keys|;
    if |table| > 5000 {
      forall ip | ip in table
        ensures exists i :: 0 <= i <= k && rs[i].ip == ip && rs[i].now >= rs[k].now - 180.0
      {
        EveryWindowOpened(rs[..k + 1], ip);
        var i :| 0 <= i < k + 1 && rs[..k + 1][i].ip == ip && table[ip].reset == rs[..k + 1][i].now + 60.0;
        if ip == rs[k].ip {
          assert rs[k].ip == ip;
        } else {
          assert table[ip].reset >= rs[k].now - 120.0;
          assert rs[i] == rs[..k + 1][i];
        }
      }
    }
  }

  // ----- the middleware object --------------------------------------------------------------------

  class RateLimiter {
    var limits: map<string, Entry>

    constructor ()
      ensures limits == map[]
    {
      limits := map[];
    }

    /** False where the middleware answers 429. */
    method HandleRequest(ip: string, now: real) returns (allowed: bool)
      modifies this
      ensures limits == Handle(old(limits), Request(ip, now))
      ensures allowed <==> Allowed(Touch(Lookup(old(limits), ip), now))
      ensures allowed && |limits| > MAX_ENTRIES ==> forall k | k in limits :: limits[k].reset >= now - STALE_AFTER
    {
      if ip !in limits || now > limits[ip].reset {
        limits := limits[ip := Entry(1, now + WINDOW)];
      } else {
        limits := limits[ip := limits[ip].(count := limits[ip].count + 1)];
        if limits[ip].count > LIMIT {
          return false;
        }
      }
      if |limits| > MAX_ENTRIES {
        Sweep(now - STALE_AFTER);
      }
      return true;
    }

    method Sweep(cutoff: real)
      modifies this
      ensures limits == Evict(old(limits), cutoff)
    {
      var stale := set k | k in limits && limits[k].reset < cutoff;
      while stale != {}
        invariant stale <= limits.Keys && forall k | k in stale :: limits[k].reset < cutoff
        invariant forall k | k in limits && limits[k].reset < cutoff :: k in stale
        invariant Evict(limits, cutoff) == Evict(old(limits), cutoff)
        decreases |stale|
      {
        var key :| key in stale;
        limits := limits - {key};
        stale := stale - {key};
      }
      assert limits == Evict(limits, cutoff);
    }
  }
}
