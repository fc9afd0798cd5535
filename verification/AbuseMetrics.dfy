/**
 The combined abuse gate (crates/abuse/src/lib.rs, `AbuseControls`): one limiter for invites, one for messages,
 and the metrics that count their decisions.
 */
module AbuseMetrics {
  import opened Prelude
  import opened RateLimit
  import opened Sums

  datatype Metrics = Metrics(inviteAllowed: nat, inviteLimited: nat, messageAllowed: nat, messageLimited: nat)

  /** A limiter with the two counters of its decisions. */
  datatype Gate = Gate(hits: map<Key, seq<int>>, allowed: nat, limited: nat)

  function GateStep(c: Config, g: Gate, a: Attempt): (Gate, Decision) {
    var (log, d) := Decide(c, LogOf(g.hits, a.key), a.now);
    var hits := g.hits[a.key := log];
    (if d.Allowed? then Gate(hits, g.allowed + 1, g.limited) else Gate(hits, g.allowed, g.limited + 1), d)
  }

  function GateAfter(c: Config, attempts: seq<Attempt>): Gate {
    if attempts == [] then Gate(map[], 0, 0)
    else GateStep(c, GateAfter(c, attempts[..|attempts| - 1]), attempts[|attempts| - 1]).0
  }

  /** Every decision is counted once, on the side it fell. */
  lemma {:induction false} GateCounts(c: Config, attempts: seq<Attempt>)
    ensures GateAfter(c, attempts).hits == Hits(c, attempts)
    ensures GateAfter(c, attempts).allowed + GateAfter(c, attempts).limited == |attempts|
  {
    if attempts == [] {
    } else {
      GateCounts(c, attempts[..|attempts| - 1]);
    }
  }

  // ---- Both gates ----

  datatype Limits = Limits(invite: Config, message: Config)

  datatype Controls = Controls(invites: Gate, messages: Gate)

  datatype Event = Invite(attempt: Attempt) | Message(attempt: Attempt)

  function Step(l: Limits, c: Controls, e: Event): (Controls, Decision) {
    match e
    case Invite(a) => var (g, d) := GateStep(l.invite, c.invites, a); (c.(invites := g), d)
    case Message(a) => var (g, d) := GateStep(l.message, c.messages, a); (c.(messages := g), d)
  }

  function After(l: Limits, es: seq<Event>): Controls {
    if es == [] then Controls(Gate(map[], 0, 0), Gate(map[], 0, 0))
    else Step(l, After(l, es[..|es| - 1]), es[|es| - 1]).0
  }

  /** The attempts of one kind, in order. */
  function Attempts(es: seq<Event>, invites: bool): seq<Attempt> {
    if es == [] then []
    else
      var before, e := Attempts(es[..|es| - 1], invites), es[|es| - 1];
      if e.Invite? == invites then before + [e.attempt] else before
  }

  /** The two gates do not influence each other: each is in the state that its own attempts produce. */
  lemma {:induction false} GatesIndependent(l: Limits, es: seq<Event>)
    ensures After(l, es)
            == Controls(GateAfter(l.invite, Attempts(es, true)), GateAfter(l.message, Attempts(es, false)))
  {
    if es == [] {
    } else {
      var init, e := es[..|es| - 1], es[|es| - 1];
      GatesIndependent(l, init);
      var before := Attempts(init, e.Invite?);
      assert (before + [e.attempt])[..|before|] == before;
    }
  }

  // ---- Who the allowed attempts belong to ----

  function Keys(attempts: seq<Attempt>): set<Key> {
    if attempts == [] then {} else Keys(attempts[..|attempts| - 1]) + {attempts[|attempts| - 1].key}
  }

  function Share(c: Config, attempts: seq<Attempt>): Key -> nat {
    key => |GrantedTo(c, attempts, key)|
  }

  lemma {:induction false} StrangersGetNothing(c: Config, attempts: seq<Attempt>, key: Key)
    requires key !in Keys(attempts)
    ensures GrantedTo(c, attempts, key) == []
  {
    if attempts == [] {
    } else {
      StrangersGetNothing(c, attempts[..|attempts| - 1], key);
    }
  }

  /** The allowed total is the sum of the grants of the keys that appear. */
  lemma {:induction false} AllowedIsTotal(c: Config, attempts: seq<Attempt>)
    ensures GateAfter(c, attempts).allowed == Total(Keys(attempts), Share(c, attempts))
  {
    if attempts == [] {
    } else {
      var init, a := attempts[..|attempts| - 1], attempts[|attempts| - 1];
      AllowedIsTotal(c, init);
      GateCounts(c, init);
      var f, g := Share(c, init), Share(c, attempts);
      if a.key !in Keys(init) {
        StrangersGetNothing(c, init, a.key);
      }
      if Decide(c, LogOf(Hits(c, init), a.key), a.now).1.Allowed? {
        TotalBump(Keys(init), f, g, a.key);
      } else {
        TotalExtend(Keys(init), f, g, a.key);
      }
    }
  }

  /** Over every run each gate's two counters add up to its attempts, and its log is that of its own attempts. */
  lemma MetricsExact(l: Limits, es: seq<Event>)
    ensures var c := After(l, es);
            var invites, messages := Attempts(es, true), Attempts(es, false);
            && c.invites.hits == Hits(l.invite, invites) && c.messages.hits == Hits(l.message, messages)
            && c.invites.allowed + c.invites.limited == |invites|
            && c.messages.allowed + c.messages.limited == |messages|
            && c.invites.allowed == Total(Keys(invites), Share(l.invite, invites))
            && c.messages.allowed == Total(Keys(messages), Share(l.message, messages))
  {
    GatesIndependent(l, es);
    GateCounts(l.invite, Attempts(es, true));
    GateCounts(l.message, Attempts(es, false));
    AllowedIsTotal(l.invite, Attempts(es, true));
    AllowedIsTotal(l.message, Attempts(es, false));
  }

  // ---- A flood within one window ----

  /** The limiter allows `a` after the attempts before it. */
  predicate Allows(c: Config, before: seq<Attempt>, a: Attempt) {
    Decide(c, LogOf(Hits(c, before), a.key), a.now).1.Allowed?
  }

  /** Whether attempt `i` comes at or after position `n` and at a time in the closed interval. */
  predicate Recent(attempts: seq<Attempt>, i: nat, n: nat, lo: int, hi: int)
    requires i < |attempts|
  {
    n <= i && lo <= attempts[i].now <= hi
  }

  /** How many attempts from position `n` on, with a time in the interval, are allowed. */
  function AllowedSince(c: Config, attempts: seq<Attempt>, n: nat, lo: int, hi: int): nat {
    if attempts == [] then 0
    else
      var last := |attempts| - 1;
      var init, a := attempts[..last], attempts[last];
      AllowedSince(c, init, n, lo, hi)
      + if Recent(attempts, last, n, lo, hi) && Allows(c, init, a) then 1 else 0
  }

  /** The keys that attempt from position `n` on with a time in the interval. */
  function KeysSince(attempts: seq<Attempt>, n: nat, lo: int, hi: int): set<Key> {
    if attempts == [] then {}
    else
      var last := |attempts| - 1;
      var keys := KeysSince(attempts[..last], n, lo, hi);
      if Recent(attempts, last, n, lo, hi) then keys + {attempts[last].key} else keys
  }

  /** One key's part of `AllowedSince`. */
  function ShareSince(c: Config, attempts: seq<Attempt>, n: nat, lo: int, hi: int, key: Key): nat {
    if attempts == [] then 0
    else
      var last := |attempts| - 1;
      var init, a := attempts[..last], attempts[last];
      ShareSince(c, init, n, lo, hi, key)
      + if a.key == key && Recent(attempts, last, n, lo, hi) && Allows(c, init, a) then 1 else 0
  }

  lemma {:induction false} StrangersShareNothing(c: Config, attempts: seq<Attempt>, n: nat, lo: int, hi: int, key: Key)
    requires key !in KeysSince(attempts, n, lo, hi)
    ensures ShareSince(c, attempts, n, lo, hi, key) == 0
  {
    if attempts == [] {
    } else {
      StrangersShareNothing(c, attempts[..|attempts| - 1], n, lo, hi, key);
    }
  }

  lemma {:induction false} SinceIsTotal(c: Config, attempts: seq<Attempt>, n: nat, lo: int, hi: int)
    ensures AllowedSince(c, attempts, n, lo, hi)
            == Total(KeysSince(attempts, n, lo, hi), k => ShareSince(c, attempts, n, lo, hi, k))
  {
    if attempts == [] {
    } else {
      var last := |attempts| - 1;
      var init, a := attempts[..last], attempts[last];
      SinceIsTotal(c, init, n, lo, hi);
      var ks := KeysSince(init, n, lo, hi);
      var f, g := k => ShareSince(c, init, n, lo, hi, k), k => ShareSince(c, attempts, n, lo, hi, k);
      if a.key !in ks {
        StrangersShareNothing(c, init, n, lo, hi, a.key);
      }
      if !Recent(attempts, last, n, lo, hi) {
        TotalSame(ks, f, g);
      } else if Allows(c, init, a) {
        TotalBump(ks, f, g, a.key);
      } else {
        TotalExtend(ks, f, g, a.key);
      }
    }
  }

  /** A key's share is part of its grants in the interval. */
  lemma {:induction false} ShareIsGranted(c: Config, attempts: seq<Attempt>, n: nat, lo: int, hi: int, key: Key)
    ensures ShareSince(c, attempts, n, lo, hi, key) <= CountIn(GrantedTo(c, attempts, key), lo, hi)
  {
    if attempts == [] {
    } else {
      var init, a := attempts[..|attempts| - 1], attempts[|attempts| - 1];
      ShareIsGranted(c, init, n, lo, hi, key);
      OneMoreCounted(GrantedTo(c, init, key), a.now, lo, hi);
    }
  }

  /** What a limiter lets through in one window for these keys together. */
  function Allowance(c: Config, ks: set<Key>): nat {
    c.limit * |ks|
  }

  /** Each key's clock steps back by at most `back`, and the limiter is immune to that. */
  ghost predicate ClocksHarmless(c: Config, attempts: seq<Attempt>, back: nat) {
    Valid(c) && Immune(c, back) && forall key :: StepsBackAtMost(Times(attempts, key), back)
  }

  /**
   Whatever happened before, the attempts from any position on whose times lie in one window get at most `limit`
   actions through for each key among them.
   */
  lemma FloodBound(c: Config, attempts: seq<Attempt>, n: nat, back: nat, lo: int)
    requires ClocksHarmless(c, attempts, back)
    ensures AllowedSince(c, attempts, n, lo, lo + c.window) <= Allowance(c, KeysSince(attempts, n, lo, lo + c.window))
  {
    var hi := lo + c.window;
    var ks, f := KeysSince(attempts, n, lo, hi), k => ShareSince(c, attempts, n, lo, hi, k);
    SinceIsTotal(c, attempts, n, lo, hi);
    forall key | key in ks ensures f(key) <= c.limit {
      SlidingWindowPerKey(c, attempts, key, back, lo);
      ShareIsGranted(c, attempts, n, lo, hi, key);
    }
    TotalBound(ks, f, c.limit);
  }

  // ---- The rise of a counter ----

  ghost predicate AllWithin(attempts: seq<Attempt>, lo: int, hi: int) {
    forall i | 0 <= i < |attempts| :: lo <= attempts[i].now <= hi
  }

  lemma {:induction false} NothingSince(c: Config, attempts: seq<Attempt>, n: nat, lo: int, hi: int)
    requires |attempts| <= n
    ensures AllowedSince(c, attempts, n, lo, hi) == 0 && KeysSince(attempts, n, lo, hi) == {}
  {
    if attempts == [] {
    } else {
      NothingSince(c, attempts[..|attempts| - 1], n, lo, hi);
    }
  }

  lemma {:induction false} LaterKeys(c: Config, before: seq<Attempt>, more: seq<Attempt>, lo: int, hi: int)
    requires AllWithin(more, lo, hi)
    ensures KeysSince(before + more, |before|, lo, hi) == Keys(more)
  {
    var all := before + more;
    if more == [] {
      assert all == before;
      NothingSince(c, before, |before|, lo, hi);
    } else {
      LaterKeys(c, before, more[..|more| - 1], lo, hi);
      assert all[..|all| - 1] == before + more[..|more| - 1];
    }
  }

  /** What the attempts from position `n` on add is what `AllowedSince` counts. */
  lemma {:induction false} AllowedSplit(c: Config, all: seq<Attempt>, n: nat, lo: int, hi: int)
    requires n <= |all| && forall i | n <= i < |all| :: lo <= all[i].now <= hi
    ensures GateAfter(c, all).allowed == GateAfter(c, all[..n]).allowed + AllowedSince(c, all, n, lo, hi)
  {
    if n == |all| {
      assert all[..n] == all;
      NothingSince(c, all, n, lo, hi);
    } else {
      var init := all[..|all| - 1];
      AllowedSplit(c, init, n, lo, hi);
      GateCounts(c, init);
      assert init[..n] == all[..n];
    }
  }

  lemma {:induction false} LaterFlood(c: Config, before: seq<Attempt>, more: seq<Attempt>, back: nat, lo: int)
    requires ClocksHarmless(c, before + more, back) && AllWithin(more, lo, lo + c.window)
    ensures AllowedSince(c, before + more, |before|, lo, lo + c.window) <= Allowance(c, Keys(more))
  {
    LaterKeys(c, before, more, lo, lo + c.window);
    FloodBound(c, before + more, |before|, back, lo);
  }

  lemma {:induction false} LaterSplit(c: Config, before: seq<Attempt>, more: seq<Attempt>, lo: int, hi: int)
    requires AllWithin(more, lo, hi)
    ensures GateAfter(c, before + more).allowed
            == GateAfter(c, before).allowed + AllowedSince(c, before + more, |before|, lo, hi)
  {
    AllowedSplit(c, before + more, |before|, lo, hi);
    assert (before + more)[..|before|] == before;
  }

  lemma {:induction false} AllowedRise(c: Config, before: seq<Attempt>, more: seq<Attempt>, back: nat, lo: int)
    requires ClocksHarmless(c, before + more, back) && AllWithin(more, lo, lo + c.window)
    ensures GateAfter(c, before + more).allowed <= GateAfter(c, before).allowed + Allowance(c, Keys(more))
  {
    LaterSplit(c, before, more, lo, lo + c.window);
    LaterFlood(c, before, more, back, lo);
  }

  lemma {:induction false} AttemptsConcat(before: seq<Event>, more: seq<Event>, invites: bool)
    ensures Attempts(before + more, invites) == Attempts(before, invites) + Attempts(more, invites)
  {
    var all := before + more;
    if more == [] {
      assert all == before;
    } else {
      var init := more[..|more| - 1];
      AttemptsConcat(before, init, invites);
      assert all[..|all| - 1] == before + init;
    }
  }

  function GateOf(c: Controls, invites: bool): Gate {
    if invites then c.invites else c.messages
  }

  function LimitOf(l: Limits, invites: bool): Config {
    if invites then l.invite else l.message
  }

  lemma GateIs(l: Limits, es: seq<Event>, invites: bool)
    ensures GateOf(After(l, es), invites) == GateAfter(LimitOf(l, invites), Attempts(es, invites))
  {
    GatesIndependent(l, es);
  }

  /**
   Between two moments of a run, if the attempts of one kind made in between have times in one window, the allowed
   counter of that kind rises by at most `limit` for each actor among them, whatever the limiter held before.
   */
  lemma CounterRise(l: Limits, before: seq<Event>, more: seq<Event>, invites: bool, back: nat, lo: int)
    requires ClocksHarmless(LimitOf(l, invites), Attempts(before + more, invites), back)
    requires AllWithin(Attempts(more, invites), lo, lo + LimitOf(l, invites).window)
    ensures GateOf(After(l, before + more), invites).allowed
            <= GateOf(After(l, before), invites).allowed
               + Allowance(LimitOf(l, invites), Keys(Attempts(more, invites)))
  {
    GateIs(l, before, invites);
    GateIs(l, before + more, invites);
    AttemptsConcat(before, more, invites);
    AllowedRise(LimitOf(l, invites), Attempts(before, invites), Attempts(more, invites), back, lo);
  }

  class AbuseControls {
    const inviteLimiter: RateLimiter
    const spamLimiter: RateLimiter
    var metrics: Metrics

    ghost predicate Separate() {
      inviteLimiter != spamLimiter
    }

    function Configs(): Limits {
      Limits(inviteLimiter.config, spamLimiter.config)
    }

    function State(): Controls
      reads this, inviteLimiter, spamLimiter
    {
      Controls(Gate(inviteLimiter.hits, metrics.inviteAllowed, metrics.inviteLimited),
               Gate(spamLimiter.hits, metrics.messageAllowed, metrics.messageLimited))
    }

    constructor (inviteLimit: u32, spamLimit: u32, window: int)
      ensures Separate() && fresh(inviteLimiter) && fresh(spamLimiter)
      ensures Configs() == Limits(Config(Max(inviteLimit, 1), window), Config(Max(spamLimit, 1), window))
      ensures State() == After(Configs(), [])
    {
      inviteLimiter := new RateLimiter(inviteLimit, window);
      spamLimiter := new RateLimiter(spamLimit, window);
      metrics := Metrics(0, 0, 0, 0);
    }

    method InviteDecision(actor: Key, now: int) returns (d: Decision)
      requires Separate()
      modifies this, inviteLimiter
      ensures (State(), d) == Step(Configs(), old(State()), Invite(Attempt(actor, now)))
    {
      d := inviteLimiter.DecisionFor(actor, now);
      if d.Allowed? {
        metrics := metrics.(inviteAllowed := metrics.inviteAllowed + 1);
      } else {
        metrics := metrics.(inviteLimited := metrics.inviteLimited + 1);
      }
    }

    method MessageDecision(actor: Key, now: int) returns (d: Decision)
      requires Separate()
      modifies this, spamLimiter
      ensures (State(), d) == Step(Configs(), old(State()), Message(Attempt(actor, now)))
    {
      d := spamLimiter.DecisionFor(actor, now);
      if d.Allowed? {
        metrics := metrics.(messageAllowed := metrics.messageAllowed + 1);
      } else {
        metrics := metrics.(messageLimited := metrics.messageLimited + 1);
      }
    }
  }
}
