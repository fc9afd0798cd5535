/**
 The per-key rate limiter (crates/abuse/src/lib.rs, `RateLimiter`). It is documented as a fixed window but keeps
 a log of hits, which gives it a true sliding window. Times are nanoseconds.
 */
module RateLimit {
  import opened Prelude

  type Key = Text

  const MS: int := 1_000_000

  datatype Decision = Allowed | RateLimited(retryAfterMs: nat)

  datatype Config = Config(limit: nat, window: int)

  /** `RateLimiter::new` raises the `u32` limit to at least one. */
  predicate Valid(c: Config) {
    1 <= c.limit < U32
  }

  /** `hits.retain(|t| *t + window >= now)`. */
  function Retain(hits: seq<int>, window: int, now: int): seq<int> {
    if hits == [] then []
    else if hits[0] + window >= now then [hits[0]] + Retain(hits[1..], window, now)
    else Retain(hits[1..], window, now)
  }

  /** `Duration::num_milliseconds` truncates towards zero. */
  function NumMilliseconds(d: int): int {
    if d >= 0 then d / MS else -(-d / MS)
  }

  /** `RateLimiter::decision` on the log of one key. */
  function Decide(c: Config, hits: seq<int>, now: int): (seq<int>, Decision) {
    var kept := Retain(hits, c.window, now);
    if |kept| % U32 >= c.limit then
      var retry := if kept == [] then 1 else Max(NumMilliseconds(kept[0] + c.window - now), 1);
      (kept, RateLimited(retry))
    else (kept + [now], Allowed)
  }

  // ---- One key ----

  predicate Sorted(ts: seq<int>) {
    forall i, j | 0 <= i < j < |ts| :: ts[i] <= ts[j]
  }

  /** The log after attempts at the times `ts`. */
  function Log(c: Config, ts: seq<int>): seq<int> {
    if ts == [] then [] else Decide(c, Log(c, ts[..|ts| - 1]), ts[|ts| - 1]).0
  }

  /** The decision on the last attempt. */
  function LastDecision(c: Config, ts: seq<int>): Decision
    requires ts != []
  {
    Decide(c, Log(c, ts[..|ts| - 1]), ts[|ts| - 1]).1
  }

  /** The times of the allowed attempts. */
  function Granted(c: Config, ts: seq<int>): seq<int> {
    if ts == [] then []
    else
      var before := Granted(c, ts[..|ts| - 1]);
      if LastDecision(c, ts).Allowed? then before + [ts[|ts| - 1]] else before
  }

  lemma {:induction false} RetainAll(hits: seq<int>, window: int, now: int)
    requires forall i | 0 <= i < |hits| :: hits[i] + window >= now
    ensures Retain(hits, window, now) == hits
  {
    if hits == [] {
    } else {
      RetainAll(hits[1..], window, now);
    }
  }

  lemma {:induction false} RetainNone(hits: seq<int>, window: int, now: int)
    requires forall i | 0 <= i < |hits| :: hits[i] + window < now
    ensures Retain(hits, window, now) == []
  {
    if hits == [] {
    } else {
      RetainNone(hits[1..], window, now);
    }
  }

  /** From a sorted log, `retain` drops a prefix. */
  lemma {:induction false} RetainDropsPrefix(hits: seq<int>, window: int, now: int)
    requires Sorted(hits)
    ensures var kept := Retain(hits, window, now);
            && |kept| <= |hits|
            && kept == hits[|hits| - |kept|..]
            && (forall i | 0 <= i < |hits| - |kept| :: hits[i] + window < now)
            && (forall i | |hits| - |kept| <= i < |hits| :: hits[i] + window >= now)
  {
    if hits == [] {
    } else if hits[0] + window >= now {
      RetainAll(hits, window, now);
    } else {
      var rest := hits[1..];
      RetainDropsPrefix(rest, window, now);
      var kept := Retain(rest, window, now);
      assert rest[|rest| - |kept|..] == hits[|hits| - |kept|..];
      forall i | 0 < i < |hits| ensures hits[i] + window < now <==> i < |hits| - |kept| {
        assert hits[i] == rest[i - 1];
      }
    }
  }

  /** The log is the tail of the granted times, short enough, and every granted time before it has expired. */
  ghost predicate TailOf(c: Config, log: seq<int>, granted: seq<int>, now: int) {
    && |log| <= c.limit && |log| <= |granted|
    && log == granted[|granted| - |log|..]
    && Sorted(granted)
    && (forall i | 0 <= i < |granted| :: granted[i] <= now)
    && (forall i | 0 <= i < |granted| - |log| :: granted[i] + c.window < now)
  }

  /** What `retain` keeps of such a log is again the tail of the granted times. */
  lemma KeptIsTail(c: Config, log: seq<int>, granted: seq<int>, before: int, now: int)
    requires TailOf(c, log, granted, before) && before <= now
    ensures TailOf(c, Retain(log, c.window, now), granted, now)
  {
    assert Sorted(log);
    RetainDropsPrefix(log, c.window, now);
    var kept, dropped := Retain(log, c.window, now), |granted| - |log|;
    assert kept == granted[|granted| - |kept|..];
    forall i | 0 <= i < |granted| - |kept| ensures granted[i] + c.window < now {
      if i >= dropped {
        assert granted[i] == log[i - dropped];
      }
    }
  }

  lemma AppendTail(c: Config, kept: seq<int>, granted: seq<int>, now: int)
    requires TailOf(c, kept, granted, now) && |kept| < c.limit
    ensures TailOf(c, kept + [now], granted + [now], now)
  {
    var g, log := granted + [now], kept + [now];
    assert log == g[|g| - |log|..];
    forall i | 0 <= i < |g| - |log| ensures g[i] + c.window < now {
      assert g[i] == granted[i];
    }
  }

  lemma TailStep(c: Config, log: seq<int>, granted: seq<int>, before: int, now: int)
    requires Valid(c) && TailOf(c, log, granted, before) && before <= now
    ensures var (log', d) := Decide(c, log, now);
            && TailOf(c, log', if d.Allowed? then granted + [now] else granted, now)
            && (d.Allowed? && |granted| >= c.limit ==> granted[|granted| - c.limit] + c.window < now)
  {
    KeptIsTail(c, log, granted, before, now);
    var kept := Retain(log, c.window, now);
    if |kept| < c.limit {
      AppendTail(c, kept, granted, now);
    }
  }

  lemma {:induction false} LogIsTail(c: Config, ts: seq<int>)
    requires Valid(c) && Sorted(ts) && ts != []
    ensures TailOf(c, Log(c, ts), Granted(c, ts), ts[|ts| - 1])
  {
    var init, now := ts[..|ts| - 1], ts[|ts| - 1];
    if init == [] {
      TailStep(c, [], [], now, now);
    } else {
      LogIsTail(c, init);
      TailStep(c, Log(c, init), Granted(c, init), init[|init| - 1], now);
    }
  }

  /** Any `limit + 1` consecutive times span more than the window. */
  ghost predicate Spread(g: seq<int>, limit: nat, window: int) {
    forall i | 0 <= i && i + limit < |g| :: g[i] + window < g[i + limit]
  }

  lemma {:induction false} GrantsSpread(c: Config, ts: seq<int>)
    requires Valid(c) && Sorted(ts)
    ensures Spread(Granted(c, ts), c.limit, c.window)
  {
    if |ts| <= 1 {
    } else {
      var init, now := ts[..|ts| - 1], ts[|ts| - 1];
      GrantsSpread(c, init);
      LogIsTail(c, init);
      TailStep(c, Log(c, init), Granted(c, init), init[|init| - 1], now);
    }
  }

  /** How many of the times lie in the closed interval. */
  function CountIn(ts: seq<int>, lo: int, hi: int): nat {
    if ts == [] then 0
    else CountIn(ts[..|ts| - 1], lo, hi) + if lo <= ts[|ts| - 1] <= hi then 1 else 0
  }

  lemma {:induction false} CountFromStart(ts: seq<int>, lo: int, hi: int, skip: nat)
    requires skip <= |ts|
    requires forall i | 0 <= i < skip :: ts[i] < lo
    ensures CountIn(ts, lo, hi) <= |ts| - skip
  {
    if ts == [] {
    } else {
      CountFromStart(ts[..|ts| - 1], lo, hi, if skip == |ts| then skip - 1 else skip);
    }
  }

  lemma {:induction false} SpreadBoundsCount(g: seq<int>, limit: nat, window: int, lo: int)
    requires Sorted(g) && Spread(g, limit, window)
    ensures CountIn(g, lo, lo + window) <= limit
  {
    if g == [] {
    } else {
      var init, last := g[..|g| - 1], g[|g| - 1];
      if lo <= last <= lo + window {
        var skip := |g| - limit;
        if skip > 0 {
          assert g[skip - 1] + window < g[skip - 1 + limit] == last;
          CountFromStart(g, lo, lo + window, skip);
        } else {
          CountFromStart(g, lo, lo + window, 0);
        }
      } else {
        SpreadBoundsCount(init, limit, window, lo);
      }
    }
  }

  /** With a clock that does not run backwards, no closed interval of one window holds more than `limit` grants. */
  lemma SlidingWindow(c: Config, ts: seq<int>, lo: int)
    requires Valid(c) && Sorted(ts)
    ensures CountIn(Granted(c, ts), lo, lo + c.window) <= c.limit
  {
    if ts != [] {
      LogIsTail(c, ts);
      GrantsSpread(c, ts);
      SpreadBoundsCount(Granted(c, ts), c.limit, c.window, lo);
    }
  }

  // ---- Clocks that step back ----

  /** One more attempt. */
  lemma OneMore(c: Config, ts: seq<int>, now: int)
    ensures var d := Decide(c, Log(c, ts), now);
            && Log(c, ts + [now]) == d.0
            && Granted(c, ts + [now]) == if d.1.Allowed? then Granted(c, ts) + [now] else Granted(c, ts)
  {
    assert (ts + [now])[..|ts|] == ts;
  }

  lemma OneMoreCounted(ts: seq<int>, t: int, lo: int, hi: int)
    ensures CountIn(ts + [t], lo, hi) == CountIn(ts, lo, hi) + if lo <= t <= hi then 1 else 0
  {
    assert (ts + [t])[..|ts|] == ts;
  }

  /** No attempt is earlier than an attempt before it by more than `back`. */
  predicate StepsBackAtMost(ts: seq<int>, back: nat) {
    forall i, j | 0 <= i < j < |ts| :: ts[i] - back <= ts[j]
  }

  /** The number of grants in the window that opens at `lo`. */
  function GrantsFrom(c: Config, ts: seq<int>, lo: int): nat {
    CountIn(Granted(c, ts), lo, lo + c.window)
  }

  /** No closed interval of one window holds more than `limit` grants. */
  ghost predicate Bounded(c: Config, ts: seq<int>) {
    forall lo :: GrantsFrom(c, ts, lo) <= c.limit
  }

  /** The `limit` hits at time 0 that fill the log, and that an attempt just after their window clears. */
  function Zeros(n: nat): seq<int> {
    if n == 0 then [] else Zeros(n - 1) + [0]
  }

  lemma {:induction false} ZerosShape(n: nat, hi: int)
    requires hi >= 0
    ensures CountIn(Zeros(n), 0, hi) == |Zeros(n)| == n
    ensures forall i | 0 <= i < n :: Zeros(n)[i] == 0
  {
    if n == 0 {
    } else {
      ZerosShape(n - 1, hi);
      OneMoreCounted(Zeros(n - 1), 0, 0, hi);
    }
  }

  /** With room in the log an attempt is granted and added. */
  lemma RoomToSpare(c: Config, log: seq<int>, now: int)
    requires Valid(c) && |log| < c.limit && forall i | 0 <= i < |log| :: log[i] + c.window >= now
    ensures Decide(c, log, now) == (log + [now], Allowed)
  {
    RetainAll(log, c.window, now);
  }

  /** When everything in the log has expired an attempt is granted and starts the log anew. */
  lemma AllExpired(c: Config, log: seq<int>, now: int)
    requires Valid(c) && forall i | 0 <= i < |log| :: log[i] + c.window < now
    ensures Decide(c, log, now) == ([now], Allowed)
  {
    RetainNone(log, c.window, now);
    assert [] + [now] == [now];
  }

  lemma {:induction false} GrantedNext(c: Config, ts: seq<int>, now: int, log: seq<int>)
    requires Decide(c, Log(c, ts), now) == (log, Allowed)
    ensures Log(c, ts + [now]) == log && Granted(c, ts + [now]) == Granted(c, ts) + [now]
  {
    OneMore(c, ts, now);
  }

  lemma {:induction false} ZerosFill(c: Config, n: nat)
    requires Valid(c) && c.window >= 0 && n <= c.limit
    ensures Log(c, Zeros(n)) == Zeros(n) == Granted(c, Zeros(n))
  {
    if n == 0 {
    } else {
      var before := Zeros(n - 1);
      ZerosFill(c, n - 1);
      ZerosShape(n - 1, 0);
      RoomToSpare(c, before, 0);
      GrantedNext(c, before, 0, before + [0]);
      assert Zeros(n) == before + [0];
    }
  }

  /** The run that breaks the bound: a full log, an attempt just after its window, and one a nanosecond earlier. */
  function OneStepBack(c: Config): seq<int> {
    Zeros(c.limit) + [c.window + 1] + [c.window]
  }

  lemma OneNanosecondBack(c: Config)
    requires Valid(c) && c.window >= 0
    ensures StepsBackAtMost(OneStepBack(c), 1)
  {
    ZerosShape(c.limit, 0);
    var ts := OneStepBack(c);
    forall i, j | 0 <= i < j < |ts| ensures ts[i] - 1 <= ts[j] {
      assert i < c.limit ==> ts[i] == Zeros(c.limit)[i];
    }
  }

  lemma {:induction false} StepBackGrants(c: Config)
    requires Valid(c) && c.limit >= 2 && c.window >= 0
    ensures Granted(c, OneStepBack(c)) == OneStepBack(c)
  {
    var zeros, late := Zeros(c.limit), c.window + 1;
    ZerosFill(c, c.limit);
    ZerosShape(c.limit, c.window);
    AllExpired(c, zeros, late);
    GrantedNext(c, zeros, late, [late]);
    RoomToSpare(c, [late], c.window);
    GrantedNext(c, zeros + [late], c.window, [late] + [c.window]);
  }

  /** With a limit above one, a single nanosecond back lets one grant too many into a window. */
  lemma {:induction false} StepBackBreaksBound(c: Config)
    requires Valid(c) && c.limit >= 2 && c.window >= 0
    ensures GrantsFrom(c, OneStepBack(c), 0) == c.limit + 1
  {
    var zeros, late := Zeros(c.limit), c.window + 1;
    StepBackGrants(c);
    ZerosShape(c.limit, c.window);
    OneMoreCounted(zeros, late, 0, c.window);
    OneMoreCounted(zeros + [late], c.window, 0, c.window);
  }

  /** Any two of the times are more than a window apart. */
  predicate Apart(g: seq<int>, window: int) {
    forall i, j | 0 <= i < j < |g| :: g[i] + window < g[j]
  }

  lemma {:induction false} ApartBoundsCount(g: seq<int>, window: int, lo: int)
    requires Apart(g, window)
    ensures CountIn(g, lo, lo + window) <= 1
  {
    if g == [] {
    } else {
      var init, last := g[..|g| - 1], g[|g| - 1];
      ApartBoundsCount(init, window, lo);
      if lo <= last <= lo + window {
        CountFromStart(init, lo, lo + window, |init|);
      }
    }
  }

  lemma AppendApart(g: seq<int>, window: int, now: int)
    requires Apart(g, window) && window >= 0
    requires g != [] ==> g[|g| - 1] + window < now
    ensures Apart(g + [now], window)
  {
  }

  /** A limiter that grants one at a time remembers the last grant, whatever the clock does. */
  lemma {:induction false} SingleGrantsApart(c: Config, ts: seq<int>)
    requires Valid(c) && c.limit == 1 && c.window >= 0
    ensures var g := Granted(c, ts);
            Apart(g, c.window) && Log(c, ts) == if g == [] then [] else [g[|g| - 1]]
  {
    if ts == [] {
    } else {
      var init, now := ts[..|ts| - 1], ts[|ts| - 1];
      SingleGrantsApart(c, init);
      var g, log := Granted(c, init), Log(c, init);
      if g == [] || g[|g| - 1] + c.window < now {
        AllExpired(c, log, now);
        AppendApart(g, c.window, now);
      } else {
        RetainAll(log, c.window, now);
      }
    }
  }

  lemma {:induction false} EmptyInterval(ts: seq<int>, lo: int, hi: int)
    requires hi < lo
    ensures CountIn(ts, lo, hi) == 0
  {
    if ts == [] {
    } else {
      EmptyInterval(ts[..|ts| - 1], lo, hi);
    }
  }

  /** The clock does not step back, or it does not matter. */
  predicate Immune(c: Config, back: nat) {
    back == 0 || c.limit == 1 || c.window < 0
  }

  lemma OrderedClock(ts: seq<int>)
    requires StepsBackAtMost(ts, 0)
    ensures Sorted(ts)
  {
    forall i, j | 0 <= i < j < |ts| ensures ts[i] <= ts[j] {
      assert ts[i] - 0 <= ts[j];
    }
  }

  /** A limit of one bounds every window under every clock. */
  lemma SingleGrantBound(c: Config, ts: seq<int>, lo: int)
    requires Valid(c) && c.limit == 1 && c.window >= 0
    ensures GrantsFrom(c, ts, lo) <= 1
  {
    var g := Granted(c, ts);
    assert Apart(g, c.window) by {
      SingleGrantsApart(c, ts);
    }
    ApartBoundsCount(g, c.window, lo);
  }

  lemma BoundedWhenImmune(c: Config, back: nat, ts: seq<int>, lo: int)
    requires Valid(c) && Immune(c, back) && StepsBackAtMost(ts, back)
    ensures GrantsFrom(c, ts, lo) <= c.limit
  {
    if c.window < 0 {
      EmptyInterval(Granted(c, ts), lo, lo + c.window);
    } else if c.limit == 1 {
      SingleGrantBound(c, ts, lo);
    } else {
      OrderedClock(ts);
      SlidingWindow(c, ts, lo);
    }
  }

  /**
   The window bound holds on every run whose clock steps back by at most `back` exactly when the clock does not step
   back at all, the limit is one, or the window is negative.
   */
  lemma SlidingWindowExact(c: Config, back: nat)
    requires Valid(c)
    ensures (forall ts | StepsBackAtMost(ts, back) :: Bounded(c, ts)) <==> Immune(c, back)
  {
    if Immune(c, back) {
      forall ts | StepsBackAtMost(ts, back) ensures Bounded(c, ts) {
        forall lo ensures GrantsFrom(c, ts, lo) <= c.limit {
          BoundedWhenImmune(c, back, ts, lo);
        }
      }
    } else {
      StepBackBreaksBound(c);
      OneNanosecondBack(c);
      assert StepsBackAtMost(OneStepBack(c), back);
    }
  }

  // ---- Retrying ----

  /** A full log opens exactly when its oldest hit leaves the window; until then every attempt leaves it as it is. */
  lemma FullLog(c: Config, log: seq<int>, now: int)
    requires Valid(c) && Sorted(log) && |log| == c.limit
    ensures Decide(c, log, now).1.Allowed? <==> now > log[0] + c.window
    ensures now <= log[0] + c.window ==> Decide(c, log, now).0 == log
  {
    RetainDropsPrefix(log, c.window, now);
    var kept := Retain(log, c.window, now);
    if now <= log[0] + c.window {
      assert forall i | 0 <= i < |log| :: log[i] >= log[0];
      assert |kept| == |log|;
    } else {
      assert |kept| < |log|;
    }
  }

  lemma RefusedStep(c: Config, log: seq<int>, now: int)
    requires Valid(c) && Sorted(log) && |log| <= c.limit
    requires Decide(c, log, now).1.RateLimited?
    ensures Decide(c, log, now).0 == log && |log| == c.limit && now <= log[0] + c.window
    ensures Decide(c, log, now).1.retryAfterMs == Max((log[0] + c.window - now) / MS, 1)
  {
    RetainDropsPrefix(log, c.window, now);
  }

  lemma {:induction false} LogKept(c: Config, ts: seq<int>)
    requires Valid(c) && Sorted(ts)
    ensures Sorted(Log(c, ts)) && |Log(c, ts)| <= c.limit
  {
    if ts != [] {
      LogIsTail(c, ts);
    }
  }

  /** After a refusal the log is full, and the delay is the oldest hit's remaining time in whole milliseconds. */
  lemma {:induction false} RefusalMeansFull(c: Config, ts: seq<int>)
    requires Valid(c) && Sorted(ts) && ts != [] && LastDecision(c, ts).RateLimited?
    ensures var log, now := Log(c, ts), ts[|ts| - 1];
            && Sorted(log) && |log| == c.limit && now <= log[0] + c.window
            && LastDecision(c, ts).retryAfterMs == Max((log[0] + c.window - now) / MS, 1)
  {
    var init, now := ts[..|ts| - 1], ts[|ts| - 1];
    LogKept(c, init);
    RefusedStep(c, Log(c, init), now);
  }

  /** Every attempt of `more`, made after the attempts `ts`, is refused. */
  ghost predicate AllRefused(c: Config, ts: seq<int>, more: seq<int>) {
    forall n | 0 < n <= |more| :: LastDecision(c, ts + more[..n]).RateLimited?
  }

  lemma {:induction false} RefusalsKeepLog(c: Config, ts: seq<int>, more: seq<int>, n: nat)
    requires Valid(c) && Sorted(ts + more) && ts != [] && n <= |more|
    requires LastDecision(c, ts).RateLimited? && AllRefused(c, ts, more)
    ensures Log(c, ts + more[..n]) == Log(c, ts)
  {
    if n == 0 {
      assert ts + more[..0] == ts;
    } else {
      var run := ts + more[..n];
      assert run[..|run| - 1] == ts + more[..n - 1] && run[|run| - 1] == more[n - 1];
      RefusalsKeepLog(c, ts, more, n - 1);
      assert Sorted(ts) by {
        assert forall i | 0 <= i < |ts| :: ts[i] == (ts + more)[i];
      }
      RefusalMeansFull(c, ts);
      FullLog(c, Log(c, ts), more[n - 1]);
    }
  }

  /**
   After a refusal, and however many refused attempts follow it, the next attempt is allowed exactly when more time
   has passed than the oldest hit had left.
   */
  lemma RetryExact(c: Config, ts: seq<int>, more: seq<int>, next: int)
    requires Valid(c) && Sorted(ts + more) && ts != []
    requires LastDecision(c, ts).RateLimited? && AllRefused(c, ts, more)
    ensures var left := Log(c, ts)[0] + c.window - ts[|ts| - 1];
            && left >= 0
            && LastDecision(c, ts).retryAfterMs == Max(left / 1_000_000, 1)
            && (LastDecision(c, ts + more + [next]).Allowed? <==> next - ts[|ts| - 1] > left)
  {
    assert Sorted(ts) by {
      assert forall i | 0 <= i < |ts| :: ts[i] == (ts + more)[i];
    }
    RefusalMeansFull(c, ts);
    RefusalsKeepLog(c, ts, more, |more|);
    var run := ts + more + [next];
    assert run[..|run| - 1] == ts + more == ts + more[..|more|];
    FullLog(c, Log(c, ts), next);
  }

  /**
   On a millisecond clock a retry before the advertised delay is refused and one a millisecond after it is allowed.
   A retry exactly at the delay is refused too, unless the oldest hit was about to expire at once.
   */
  lemma {:induction false} RetryOnMillisecondClock(c: Config, ts: seq<int>, more: seq<int>, wait: nat)
    requires Valid(c) && Sorted(ts + more) && ts != []
    requires LastDecision(c, ts).RateLimited? && AllRefused(c, ts, more)
    requires (Log(c, ts)[0] + c.window - ts[|ts| - 1]) % MS == 0
    ensures var now, advertised := ts[|ts| - 1], LastDecision(c, ts).retryAfterMs;
            LastDecision(c, ts + more + [now + wait * MS]).Allowed?
            <==> wait > advertised || (wait == advertised && Log(c, ts)[0] + c.window == now)
  {
    RetryExact(c, ts, more, ts[|ts| - 1] + wait * MS);
  }

  // ---- All keys ----

  datatype Attempt = Attempt(key: Key, now: int)

  function LogOf(hits: map<Key, seq<int>>, key: Key): seq<int> {
    if key in hits then hits[key] else []
  }

  function Hits(c: Config, attempts: seq<Attempt>): map<Key, seq<int>> {
    if attempts == [] then map[]
    else
      var before, a := Hits(c, attempts[..|attempts| - 1]), attempts[|attempts| - 1];
      before[a.key := Decide(c, LogOf(before, a.key), a.now).0]
  }

  /** The times one key is attempted. */
  function Times(attempts: seq<Attempt>, key: Key): seq<int> {
    if attempts == [] then []
    else
      var before, a := Times(attempts[..|attempts| - 1], key), attempts[|attempts| - 1];
      if a.key == key then before + [a.now] else before
  }

  /** The times at which a run of mixed keys allows one key. */
  function GrantedTo(c: Config, attempts: seq<Attempt>, key: Key): seq<int> {
    if attempts == [] then []
    else
      var init, a := attempts[..|attempts| - 1], attempts[|attempts| - 1];
      var before := GrantedTo(c, init, key);
      if a.key == key && Decide(c, LogOf(Hits(c, init), key), a.now).1.Allowed? then before + [a.now] else before
  }

  /** Keys do not influence each other: a key's log and grants are those of a limiter it has to itself. */
  lemma {:induction false} KeysIndependent(c: Config, attempts: seq<Attempt>, key: Key)
    ensures LogOf(Hits(c, attempts), key) == Log(c, Times(attempts, key))
    ensures GrantedTo(c, attempts, key) == Granted(c, Times(attempts, key))
  {
    if attempts == [] {
    } else {
      var init, a := attempts[..|attempts| - 1], attempts[|attempts| - 1];
      KeysIndependent(c, init, key);
      if a.key == key {
        var ts := Times(init, key);
        assert (ts + [a.now])[..|ts|] == ts;
      }
    }
  }

  /** While a key's clock does not step back, its stored log is sorted and never longer than `limit`. */
  lemma LogPerKey(c: Config, attempts: seq<Attempt>, key: Key)
    requires Valid(c) && Sorted(Times(attempts, key))
    ensures Sorted(LogOf(Hits(c, attempts), key)) && |LogOf(Hits(c, attempts), key)| <= c.limit
  {
    KeysIndependent(c, attempts, key);
    LogKept(c, Times(attempts, key));
  }

  /**
   Over every interleaving of keys, each with a clock of its own, every closed interval of one window holds at most
   `limit` grants to a key whose clock cannot hurt.
   */
  lemma SlidingWindowPerKey(c: Config, attempts: seq<Attempt>, key: Key, back: nat, lo: int)
    requires Valid(c) && Immune(c, back) && StepsBackAtMost(Times(attempts, key), back)
    ensures CountIn(GrantedTo(c, attempts, key), lo, lo + c.window) <= c.limit
  {
    KeysIndependent(c, attempts, key);
    BoundedWhenImmune(c, back, Times(attempts, key), lo);
  }

  class RateLimiter {
    const config: Config
    var hits: map<Key, seq<int>>

    constructor (limit: u32, window: int)
      ensures config == Config(Max(limit, 1), window) && Valid(config) && hits == map[]
    {
      config := Config(if limit <= 1 then 1 else limit, window);
      hits := map[];
    }

    /** `RateLimiter::decision`: only the log of this key changes. */
    method DecisionFor(key: Key, now: int) returns (d: Decision)
      modifies this
      ensures d == Decide(config, LogOf(old(hits), key), now).1
      ensures hits == old(hits)[key := Decide(config, LogOf(old(hits), key), now).0]
    {
      if key !in hits {
        hits := hits[key := []];
      }
      var kept := Retain(hits[key], config.window, now);
      hits := hits[key := kept];
      if |kept| % U32 >= config.limit {
        var retry := 1;
        if kept != [] {
          retry := Max(NumMilliseconds(kept[0] + config.window - now), 1);
        }
        d := RateLimited(retry);
      } else {
        hits := hits[key := kept + [now]];
        d := Allowed;
      }
      assert hits == old(hits)[key := hits[key]];
    }
  }
}
