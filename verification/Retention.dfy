/**
 Retention windows and transitions between them (crates/content-keys/src/lib.rs, `key_state`,
 `RetentionTransition` and `transition_key_state`). Times are nanoseconds.
 */
module Retention {
  import opened Prelude
  import opened KeyStates

  datatype Window = Hours1 | Hours24 | Days7 | Days30 | Days90 | CustomSeconds(seconds: u64) | UnlimitedWarned

  const SECOND: int := 1_000_000_000

  function Seconds(w: Window): Option<u64> {
    match w
    case Hours1 => Some(3600)
    case Hours24 => Some(86400)
    case Days7 => Some(604800)
    case Days30 => Some(2592000)
    case Days90 => Some(7776000)
    case CustomSeconds(s) => Some(s)
    case UnlimitedWarned => None
  }

  /** The presets are as long as their names say, and only the warned window has no end. */
  lemma PresetLengths(s: u64)
    ensures var hour, day := 60 * 60, 24 * 60 * 60;
            && Seconds(Hours1) == Some(hour) && Seconds(Hours24) == Some(day)
            && Seconds(Days7) == Some(7 * day) && Seconds(Days30) == Some(30 * day) && Seconds(Days90) == Some(90 * day)
            && Seconds(CustomSeconds(s)) == Some(s)
    ensures forall w :: Seconds(w).None? <==> w == UnlimitedWarned
    ensures SECOND == 1_000_000_000
  {
  }

  /** `s as i64` wraps around. */
  function AsI64(s: u64): int {
    if s <= I64_MAX then s else s - U64
  }

  /** `Duration::seconds` panics outside the range that fits an `i64` of milliseconds. */
  predicate Defined(w: Window) {
    Seconds(w).None? || -(I64_MAX / 1000) <= AsI64(Seconds(w).value) <= I64_MAX / 1000
  }

  /** The windows that do not panic are those of at most, or of all but at most, `i64::MAX / 1000` seconds. */
  lemma DefinedExact(w: Window)
    ensures Defined(w)
            <==> || w == UnlimitedWarned
                 || Seconds(w).value <= 9_223_372_036_854_775 || U64 - Seconds(w).value <= 9_223_372_036_854_775
  {
  }

  /** `key_state`; `None` is a panic. */
  function State(now: int, sentAt: int, w: Window, key: Digest, tombstoned: bool): Option<KeyState> {
    if tombstoned then Some(Shredded)
    else
      match Seconds(w)
      case None => Some(Cached(key))
      case Some(s) =>
        if !Defined(w) then None
        else if now - sentAt <= AsI64(s) * SECOND then Some(Cached(key))
        else Some(Locked)
  }

  /** The age is within the window's documented length; the warned unlimited window has no bound. */
  predicate Fits(age: int, w: Window) {
    Seconds(w).None? || age <= Seconds(w).value * SECOND
  }

  predicate Representable(w: Window) {
    Seconds(w).None? || Seconds(w).value <= I64_MAX / 1000
  }

  /** The cast turns the length negative, and the negative length is small enough not to panic. */
  predicate Wraps(w: Window) {
    Defined(w) && !Representable(w)
  }

  /** The longest window there is locks a message at once. */
  lemma LongestWindowLocks(key: Digest)
    ensures var w := CustomSeconds(U64 - 1);
            Wraps(w) && Fits(0, w) && State(0, 0, w, key, false) == Some(Locked)
  {
  }

  /**
   The code meets the documented rule, that a key is cached while its age fits the window, exactly for the
   windows whose seconds fit `Duration`. Every other window panics or wraps to a negative length.
   */
  lemma WindowRuleExact(w: Window, key: Digest)
    ensures (forall now, sentAt :: State(now, sentAt, w, key, false)
                                   == Some(if Fits(now - sentAt, w) then Cached(key) else Locked))
            <==> Representable(w)
  {
    if !Representable(w) {
      assert State(0, 0, w, key, false) != Some(Cached(key)) && Fits(0 - 0, w);
    }
  }

  /** A message locked under a fixed window stays locked. */
  lemma LockedStaysLocked(now: int, later: int, sentAt: int, w: Window, key: Digest)
    requires now <= later
    requires State(now, sentAt, w, key, false) == Some(Locked)
    ensures State(later, sentAt, w, key, false) == Some(Locked)
  {
  }

  // ---- Transitions ----

  datatype Transition = Transition(before: Window, after: Window, changedAt: int)

  predicate IsShorter(after: Window, before: Window) {
    match (Seconds(after), Seconds(before))
    case (Some(a), Some(b)) => a < b
    case (Some(_), None) => true
    case (None, _) => false
  }

  /** `state_for_message`. */
  function StateForMessage(t: Transition, now: int, sentAt: int, key: Digest, tombstoned: bool): Option<KeyState> {
    if tombstoned then Some(Shredded)
    else if IsShorter(t.after, t.before) then State(now, sentAt, t.after, key, false)
    else if sentAt < t.changedAt then State(now, sentAt, t.before, key, false)
    else State(now, sentAt, t.after, key, false)
  }

  /** `None` is an infinite window. */
  function Smaller(a: Option<u64>, b: Option<u64>): Option<u64> {
    if a.None? then b else if b.None? || a.value <= b.value then a else b
  }

  /** The seconds that a message has under a transition: the smaller window's, or the new one's for later messages. */
  function Effective(t: Transition, sentAt: int): Option<u64> {
    if sentAt < t.changedAt then Smaller(Seconds(t.before), Seconds(t.after)) else Seconds(t.after)
  }

  /** The window with a given number of seconds. */
  function OfSeconds(seconds: Option<u64>): Window {
    if seconds.None? then UnlimitedWarned else CustomSeconds(seconds.value)
  }

  /**
   The branching rule is a simple one: messages sent before the change get the smaller of the two windows, later
   ones the new window. A transition is therefore never more permissive than its new window is documented to be.
   */
  lemma EffectiveWindow(t: Transition, now: int, sentAt: int, key: Digest, tombstoned: bool)
    ensures StateForMessage(t, now, sentAt, key, tombstoned)
            == State(now, sentAt, OfSeconds(Effective(t, sentAt)), key, tombstoned)
    ensures StateForMessage(t, now, sentAt, key, tombstoned) == Some(Cached(key)) ==> Fits(now - sentAt, t.after)
  {
  }

  /** The message is young enough for these seconds as the code measures them. */
  predicate Within(now: int, sentAt: int, seconds: Option<u64>) {
    seconds.Some? ==> Defined(CustomSeconds(seconds.value)) && now - sentAt <= AsI64(seconds.value) * SECOND
  }

  predicate Panics(seconds: Option<u64>) {
    seconds.Some? && !Defined(CustomSeconds(seconds.value))
  }

  /** `transition_key_state`. */
  function TransitionState(now: int, sentAt: int, current: KeyState, t: Transition, key: Digest): Option<KeyState> {
    if current.Shredded? then Some(Shredded)
    else if current.Locked? && !IsShorter(t.after, t.before) then Some(Locked)
    else StateForMessage(t, now, sentAt, key, false)
  }

  /** From every state but `Locked` and `Shredded` an update applies the effective window. */
  lemma OpenStep(now: int, sentAt: int, current: KeyState, t: Transition, key: Digest)
    requires !current.Locked? && !current.Shredded?
    ensures TransitionState(now, sentAt, current, t, key)
            == if Panics(Effective(t, sentAt)) then None
               else if Within(now, sentAt, Effective(t, sentAt)) then Some(Cached(key))
               else Some(Locked)
  {
  }

  /** An update that leaves the window as it is keeps every lock, at every time. */
  lemma SameWindowKeepsLock(now: int, sentAt: int, w: Window, changedAt: int, key: Digest)
    ensures TransitionState(now, sentAt, Locked, Transition(w, w, changedAt), key) == Some(Locked)
  {
  }

  // ---- Runs of policy updates ----

  datatype Update = Update(now: int, transition: Transition)

  /** The state after a run of updates, or `None` once one of them has panicked. */
  function Run(sentAt: int, key: Digest, start: KeyState, us: seq<Update>): Option<KeyState> {
    if us == [] then Some(start)
    else
      match Run(sentAt, key, start, us[..|us| - 1])
      case None => None
      case Some(k) => TransitionState(us[|us| - 1].now, sentAt, k, us[|us| - 1].transition, key)
  }

  lemma {:induction false} ShreddedForever(sentAt: int, key: Digest, us: seq<Update>)
    ensures Run(sentAt, key, Shredded, us) == Some(Shredded)
  {
    if us == [] {
    } else {
      ShreddedForever(sentAt, key, us[..|us| - 1]);
    }
  }

  /** The message fits the window that the update gives it. */
  predicate StillFits(u: Update, sentAt: int) {
    Within(u.now, sentAt, Effective(u.transition, sentAt))
  }

  lemma {:induction false} CacheKept(sentAt: int, key: Digest, us: seq<Update>, n: nat)
    requires n <= |us| && forall i | 0 <= i < n :: StillFits(us[i], sentAt)
    ensures Run(sentAt, key, Cached(key), us[..n]) == Some(Cached(key))
  {
    if n == 0 {
    } else {
      CacheKept(sentAt, key, us, n - 1);
      assert us[..n][..n - 1] == us[..n - 1];
      OpenStep(us[n - 1].now, sentAt, Cached(key), us[n - 1].transition, key);
    }
  }

  lemma {:induction false} FirstMisfit(sentAt: int, us: seq<Update>, k: nat) returns (n: nat)
    requires k <= |us| && forall i | 0 <= i < k :: StillFits(us[i], sentAt)
    requires exists i | 0 <= i < |us| :: !StillFits(us[i], sentAt)
    ensures n < |us| && !StillFits(us[n], sentAt) && forall i | 0 <= i < n :: StillFits(us[i], sentAt)
    decreases |us| - k
  {
    if k == |us| || !StillFits(us[k], sentAt) {
      n := k;
    } else {
      n := FirstMisfit(sentAt, us, k + 1);
    }
  }

  /** At the first update whose window a message no longer fits, its key locks, unless the window panics. */
  lemma CacheEnds(sentAt: int, key: Digest, us: seq<Update>, n: nat)
    requires n < |us| && (forall i | 0 <= i < n :: StillFits(us[i], sentAt)) && !StillFits(us[n], sentAt)
    ensures Run(sentAt, key, Cached(key), us[..n + 1])
            == if Panics(Effective(us[n].transition, sentAt)) then None else Some(Locked)
  {
    CacheKept(sentAt, key, us, n);
    assert us[..n + 1][..n] == us[..n];
    OpenStep(us[n].now, sentAt, Cached(key), us[n].transition, key);
  }

  /** A cached key stays cached throughout a run exactly when the message fits the effective window of each update. */
  lemma CacheExact(sentAt: int, key: Digest, us: seq<Update>)
    ensures (forall n | 0 <= n <= |us| :: Run(sentAt, key, Cached(key), us[..n]) == Some(Cached(key)))
            <==> (forall i | 0 <= i < |us| :: StillFits(us[i], sentAt))
  {
    if forall i | 0 <= i < |us| :: StillFits(us[i], sentAt) {
      forall n | 0 <= n <= |us| ensures Run(sentAt, key, Cached(key), us[..n]) == Some(Cached(key)) {
        CacheKept(sentAt, key, us, n);
      }
    } else {
      var n := FirstMisfit(sentAt, us, 0);
      CacheEnds(sentAt, key, us, n);
      assert Run(sentAt, key, Cached(key), us[..n + 1]) != Some(Cached(key));
    }
  }

  predicate Shortens(u: Update) {
    IsShorter(u.transition.after, u.transition.before)
  }

  /** The update shortens the window, and the message is young enough for the new one as the code measures it. */
  predicate Reopens(u: Update, sentAt: int) {
    && Shortens(u) && Defined(u.transition.after)
    && u.now - sentAt <= AsI64(Seconds(u.transition.after).value) * SECOND
  }

  predicate PanicsWhenLocked(u: Update) {
    Shortens(u) && !Defined(u.transition.after)
  }

  /** One more update of a locked key. */
  lemma RunStep(sentAt: int, key: Digest, us: seq<Update>, n: nat)
    requires n < |us| && Run(sentAt, key, Locked, us[..n]) == Some(Locked)
    ensures Run(sentAt, key, Locked, us[..n + 1])
            == if PanicsWhenLocked(us[n]) then None
               else if Reopens(us[n], sentAt) then Some(Cached(key))
               else Some(Locked)
  {
    assert us[..n + 1][..n] == us[..n];
  }

  lemma {:induction false} LockKept(sentAt: int, key: Digest, us: seq<Update>, n: nat)
    requires n <= |us|
    requires forall u | u in us :: !Reopens(u, sentAt) && !PanicsWhenLocked(u)
    ensures Run(sentAt, key, Locked, us[..n]) == Some(Locked)
  {
    if n == 0 {
    } else {
      LockKept(sentAt, key, us, n - 1);
      RunStep(sentAt, key, us, n - 1);
    }
  }

  /**
   A lock survives a whole run exactly when no update of the run both shortens the window and either panics or
   leaves it at least as long as the message is old. Locks are not permanent in general.
   */
  lemma LockExact(sentAt: int, key: Digest, us: seq<Update>)
    ensures (forall n | 0 <= n <= |us| :: Run(sentAt, key, Locked, us[..n]) == Some(Locked))
            <==> (forall u | u in us :: !Reopens(u, sentAt) && !PanicsWhenLocked(u))
  {
    if forall u | u in us :: !Reopens(u, sentAt) && !PanicsWhenLocked(u) {
      forall n | 0 <= n <= |us| ensures Run(sentAt, key, Locked, us[..n]) == Some(Locked) {
        LockKept(sentAt, key, us, n);
      }
    } else {
      var i :| 0 <= i < |us| && (Reopens(us[i], sentAt) || PanicsWhenLocked(us[i]));
      if Run(sentAt, key, Locked, us[..i]) == Some(Locked) {
        RunStep(sentAt, key, us, i);
        assert Run(sentAt, key, Locked, us[..i + 1]) != Some(Locked);
      }
    }
  }

  /** No lock is lost by updates that do not shorten the window. */
  lemma LengtheningKeepsLocks(sentAt: int, key: Digest, us: seq<Update>)
    requires forall u | u in us :: !Shortens(u)
    ensures Run(sentAt, key, Locked, us) == Some(Locked)
  {
    LockKept(sentAt, key, us, |us|);
    assert us[..|us|] == us;
  }

  /** Lengthening and then shortening again does bring a locked key back. */
  lemma LockCanReopen(key: Digest)
    ensures var day := 86400 * SECOND;
            && State(2 * day, 0, Hours1, key, false) == Some(Locked)
            && Run(0, key, Locked, [Update(2 * day, Transition(Hours1, Days30, 2 * day)),
                                    Update(2 * day, Transition(Days30, Days7, 2 * day))]) == Some(Cached(key))
  {
    var day := 86400 * SECOND;
    var lengthen := Update(2 * day, Transition(Hours1, Days30, 2 * day));
    var shorten := Update(2 * day, Transition(Days30, Days7, 2 * day));
    var us := [lengthen, shorten];
    assert us[..0] == [] && us[..1] == [lengthen] && us[..2] == us;
    RunStep(0, key, us, 0);
    RunStep(0, key, us, 1);
  }

  // ---- Chains of shortenings ----

  /** Each update starts from the window the one before it set, and the clock does not run backwards. */
  predicate Contiguous(us: seq<Update>) {
    forall i | 0 < i < |us| ::
      us[i].transition.before == us[i - 1].transition.after && us[i - 1].now <= us[i].now
  }

  /** A chain of shortenings that starts from a window which had locked the message by then. */
  predicate JustifiedChain(w: Window, key: Digest, lockedAt: int, sentAt: int, us: seq<Update>) {
    && us != [] && us[0].transition.before == w && Contiguous(us)
    && (forall u | u in us :: Shortens(u))
    && lockedAt <= us[0].now && State(lockedAt, sentAt, w, key, false) == Some(Locked)
  }

  lemma {:induction false} TooOldForChain(w: Window, key: Digest, lockedAt: int, sentAt: int, us: seq<Update>, i: nat)
    requires JustifiedChain(w, key, lockedAt, sentAt, us) && Representable(w) && i < |us|
    ensures !Fits(us[i].now - sentAt, us[i].transition.after) && lockedAt <= us[i].now
    ensures !Fits(lockedAt - sentAt, us[i].transition.before) && Representable(us[i].transition.after)
  {
    assert us[i] in us && Shortens(us[i]);
    if i == 0 {
    } else {
      TooOldForChain(w, key, lockedAt, sentAt, us, i - 1);
      assert Shortens(us[i - 1]) && us[i].transition.before == us[i - 1].transition.after;
    }
  }

  /** Shortening from a wrapped window to an hour brings a message back that the wrapped window had locked. */
  lemma WrappedChainReopens(w: Window, key: Digest)
    requires Wraps(w)
    ensures var us := [Update(0, Transition(w, Hours1, 0))];
            JustifiedChain(w, key, 0, 0, us) && Run(0, key, Locked, us) == Some(Cached(key))
  {
    var us := [Update(0, Transition(w, Hours1, 0))];
    assert us[..0] == [] && us[..1] == us;
    RunStep(0, key, us, 0);
  }

  /**
   A lock survives every chain of shortenings that starts from the window which justified it, exactly when that
   window's length does not wrap.
   */
  lemma ShorteningKeepsJustifiedLocks(w: Window, key: Digest)
    ensures (forall lockedAt, sentAt, us | JustifiedChain(w, key, lockedAt, sentAt, us) ::
               Run(sentAt, key, Locked, us) == Some(Locked))
            <==> !Wraps(w)
  {
    if Wraps(w) {
      WrappedChainReopens(w, key);
    } else {
      forall lockedAt, sentAt, us | JustifiedChain(w, key, lockedAt, sentAt, us)
        ensures Run(sentAt, key, Locked, us) == Some(Locked)
      {
        forall u | u in us ensures !Reopens(u, sentAt) && !PanicsWhenLocked(u) {
          var i :| 0 <= i < |us| && us[i] == u;
          TooOldForChain(w, key, lockedAt, sentAt, us, i);
        }
        LockKept(sentAt, key, us, |us|);
        assert us[..|us|] == us;
      }
    }
  }
}
