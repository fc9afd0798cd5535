/**
 The application event log and its paging consumer (apps/ui/src/commands.ts, `pushEvent` and `pollAppEvents`;
 apps/ui/src/main.tsx, `pollAppEventFallback` and `updateEventCursor`).
 */
module EventLog {
  import opened Prelude

  datatype AppEvent = AppEvent(sequence: nat, kind: string, summary: string)

  /** The log and `event_cursor`. */
  datatype Log = Log(events: seq<AppEvent>, cursor: nat)

  datatype Page = Page(events: seq<AppEvent>, nextCursor: nat, hasMore: bool)

  /** The sequence number of the last event, or 0. */
  function LastSequence(es: seq<AppEvent>): nat {
    if es == [] then 0 else es[|es| - 1].sequence
  }

  function Push(log: Log, kind: string, summary: string): Log {
    var n := LastSequence(log.events) + 1;
    Log(log.events + [AppEvent(n, kind, summary)], n)
  }

  predicate Increasing(es: seq<AppEvent>) {
    forall i, j | 0 <= i < j < |es| :: es[i].sequence < es[j].sequence
  }

  /** Sequence numbers increase, and the cursor is the last of them. */
  predicate Valid(log: Log) {
    Increasing(log.events) && log.cursor == LastSequence(log.events)
  }

  /** The new event takes the number after the last one; the log before it stays as it is. */
  lemma PushExact(log: Log, kind: string, summary: string)
    requires Valid(log)
    ensures var next := Push(log, kind, summary);
            && next.events == log.events + [AppEvent(log.cursor + 1, kind, summary)]
            && next.cursor == log.cursor + 1
  {
  }

  lemma PushKeepsValid(log: Log, kind: string, summary: string)
    requires Valid(log)
    ensures Valid(Push(log, kind, summary)) && log.cursor < Push(log, kind, summary).cursor
  {
  }

  // ---- Polling ----

  /** `kind.split(".")[0]`. */
  function Topic(kind: string): string {
    if kind == "" || kind[0] == '.' then "" else [kind[0]] + Topic(kind[1..])
  }

  /** The topic is the part before the first dot, or the whole kind where there is none. */
  lemma {:induction false} TopicExact(kind: string)
    ensures '.' !in Topic(kind)
    ensures if '.' in kind then Topic(kind) + "." <= kind else Topic(kind) == kind
  {
    if kind == "" || kind[0] == '.' {
      assert Topic(kind) + "." == ".";
    } else {
      TopicExact(kind[1..]);
      assert kind == [kind[0]] + kind[1..];
    }
  }

  /** No subscribed topic means every event. */
  predicate Matches(topics: set<string>, e: AppEvent) {
    topics == {} || Topic(e.kind) in topics
  }

  /** The matching events after a cursor. */
  function Filtered(es: seq<AppEvent>, topics: set<string>, after: nat): seq<AppEvent> {
    if es == [] then []
    else
      var init, e := Filtered(es[..|es| - 1], topics, after), es[|es| - 1];
      if e.sequence > after && Matches(topics, e) then init + [e] else init
  }

  function Limit(requested: Option<int>): nat {
    Max(1, Min(if requested.None? then 64 else requested.value, 256))
  }

  /** `pollAppEvents`. */
  function Poll(log: Log, topics: set<string>, after: nat, requested: Option<int>): Page {
    var filtered := Filtered(log.events, topics, after);
    var events := if |filtered| <= Limit(requested) then filtered else filtered[..Limit(requested)];
    Page(events, if events == [] then log.cursor else LastSequence(events), |filtered| > Limit(requested))
  }

  // ---- One page ----

  /** The matching events after one cursor and up to another. */
  function Between(es: seq<AppEvent>, topics: set<string>, lo: nat, hi: nat): seq<AppEvent> {
    if es == [] then []
    else
      var init, e := Between(es[..|es| - 1], topics, lo, hi), es[|es| - 1];
      if lo < e.sequence <= hi && Matches(topics, e) then init + [e] else init
  }

  /** An event belongs to a topic if its kind is that topic, or the topic and a dot and something more. */
  predicate HasTopic(kind: string, topic: string) {
    '.' !in topic && (kind == topic || topic + "." <= kind)
  }

  lemma {:induction false} HasTopicExact(kind: string, topic: string)
    ensures HasTopic(kind, topic) <==> topic == Topic(kind)
  {
    TopicExact(kind);
    if topic == "" {
      assert "" + "." == ".";
    } else if kind == "" || kind[0] != topic[0] {
      assert !HasTopic(kind, topic);
    } else {
      HasTopicExact(kind[1..], topic[1..]);
      assert kind == [kind[0]] + kind[1..] && topic == [topic[0]] + topic[1..];
      assert topic + "." == [topic[0]] + (topic[1..] + ".");
    }
  }

  /** What lies between two cursors is what has a number between them and a subscribed topic, if there is any. */
  lemma {:induction false} BetweenExact(es: seq<AppEvent>, topics: set<string>, lo: nat, hi: nat, e: AppEvent)
    ensures e in Between(es, topics, lo, hi)
            <==> && e in es && lo < e.sequence <= hi
                 && (topics == {} || exists t | t in topics :: HasTopic(e.kind, t))
  {
    if es == [] {
    } else {
      var init, last := es[..|es| - 1], es[|es| - 1];
      BetweenExact(init, topics, lo, hi, e);
      assert es == init + [last];
      HasTopicExact(e.kind, Topic(e.kind));
      if t: string :| t in topics && HasTopic(e.kind, t) {
        HasTopicExact(e.kind, t);
      }
    }
  }

  /** A page holds 64 events unless another number is asked for, and always between 1 and 256. */
  lemma LimitExact(requested: Option<int>)
    ensures requested.None? ==> Limit(requested) == 64
    ensures requested.Some? && 1 <= requested.value <= 256 ==> Limit(requested) == requested.value
    ensures requested.Some? && requested.value < 1 ==> Limit(requested) == 1
    ensures requested.Some? && requested.value > 256 ==> Limit(requested) == 256
  {
  }

  lemma AppendIncreasing(f: seq<AppEvent>, e: AppEvent)
    requires Increasing(f) && forall i | 0 <= i < |f| :: f[i].sequence < e.sequence
    ensures Increasing(f + [e])
  {
    var g := f + [e];
    forall i, j | 0 <= i < j < |g| ensures g[i].sequence < g[j].sequence {
      assert g[i] == f[i];
    }
  }

  lemma {:induction false} FilteredRange(es: seq<AppEvent>, topics: set<string>, after: nat)
    requires Increasing(es)
    ensures var f := Filtered(es, topics, after);
            Increasing(f) && forall i | 0 <= i < |f| :: after < f[i].sequence <= LastSequence(es)
  {
    if es == [] {
    } else {
      var init, e := es[..|es| - 1], es[|es| - 1];
      FilteredRange(init, topics, after);
      assert init != [] ==> LastSequence(init) < e.sequence;
      if e.sequence > after && Matches(topics, e) {
        AppendIncreasing(Filtered(init, topics, after), e);
      }
    }
  }

  lemma {:induction false} BetweenRange(es: seq<AppEvent>, topics: set<string>, lo: nat, hi: nat)
    ensures forall e | e in Between(es, topics, lo, hi) :: lo < e.sequence <= hi
  {
    if es == [] {
    } else {
      BetweenRange(es[..|es| - 1], topics, lo, hi);
    }
  }

  lemma {:induction false} NothingAfter(es: seq<AppEvent>, topics: set<string>, after: nat)
    requires Increasing(es) && LastSequence(es) <= after
    ensures Filtered(es, topics, after) == []
  {
    if es == [] {
    } else {
      NothingAfter(es[..|es| - 1], topics, after);
    }
  }

  /** What follows a cursor is what lies up to a later one, and then what follows that. */
  lemma {:induction false} FilteredSplit(es: seq<AppEvent>, topics: set<string>, lo: nat, mid: nat)
    requires Increasing(es) && lo <= mid
    ensures Filtered(es, topics, lo) == Between(es, topics, lo, mid) + Filtered(es, topics, mid)
  {
    if es == [] {
    } else {
      var init, e := es[..|es| - 1], es[|es| - 1];
      FilteredSplit(init, topics, lo, mid);
      if e.sequence <= mid {
        NothingAfter(init, topics, mid);
      }
    }
  }

  lemma SuffixCancels(a: seq<AppEvent>, b: seq<AppEvent>, tail: seq<AppEvent>)
    requires a + tail == b + tail
    ensures a == b
  {
    assert |a| == |b|;
    assert a == (a + tail)[..|a|] && b == (b + tail)[..|b|];
  }

  lemma BetweenSplit(es: seq<AppEvent>, topics: set<string>, lo: nat, mid: nat, hi: nat)
    requires Increasing(es) && lo <= mid <= hi
    ensures Between(es, topics, lo, hi) == Between(es, topics, lo, mid) + Between(es, topics, mid, hi)
  {
    FilteredSplit(es, topics, lo, hi);
    FilteredSplit(es, topics, lo, mid);
    FilteredSplit(es, topics, mid, hi);
    var tail := Filtered(es, topics, hi);
    assert Between(es, topics, lo, hi) + tail
        == (Between(es, topics, lo, mid) + Between(es, topics, mid, hi)) + tail;
    SuffixCancels(Between(es, topics, lo, hi), Between(es, topics, lo, mid) + Between(es, topics, mid, hi), tail);
  }

  /** Cutting the filtered events after `k` of them is cutting at the sequence number of the last one kept. */
  lemma PageBoundary(es: seq<AppEvent>, topics: set<string>, lo: nat, f: seq<AppEvent>, k: nat, mid: nat)
    requires Increasing(es) && f == Filtered(es, topics, lo) && Increasing(f)
    requires 0 < k <= |f| && mid == f[k - 1].sequence && lo <= mid
    ensures Between(es, topics, lo, mid) == f[..k]
  {
    FilteredSplit(es, topics, lo, mid);
    FilteredRange(es, topics, mid);
    BetweenRange(es, topics, lo, mid);
    var a, b := Between(es, topics, lo, mid), Filtered(es, topics, mid);
    assert f == a + b;
    assert forall i | 0 <= i < |a| :: f[i] in a;
    assert forall i | |a| <= i < |f| :: f[i] == b[i - |a|];
    assert k - 1 < |a|;
    assert k < |f| ==> f[k - 1].sequence < f[k].sequence;
  }

  /**
   A page is exactly the matching events between its two cursors; the cursor moves forward and not beyond the log;
   and a page without `has_more` leaves nothing matching behind.
   */
  lemma PageExact(log: Log, topics: set<string>, after: nat, requested: Option<int>)
    requires Valid(log) && after <= log.cursor
    ensures var page := Poll(log, topics, after, requested);
            && page.events == Between(log.events, topics, after, page.nextCursor)
            && after <= page.nextCursor <= log.cursor
            && (page.hasMore <==> Filtered(log.events, topics, page.nextCursor) != [])
            && |Filtered(log.events, topics, page.nextCursor)|
               == |Filtered(log.events, topics, after)| - |page.events|
            && (page.hasMore ==> |page.events| == Limit(requested) >= 1)
  {
    var page := Poll(log, topics, after, requested);
    var f := Filtered(log.events, topics, after);
    FilteredRange(log.events, topics, after);
    FilteredSplit(log.events, topics, after, page.nextCursor);
    if page.events == [] {
      NothingAfter(log.events, topics, page.nextCursor);
    } else {
      PageBoundary(log.events, topics, after, f, |page.events|, page.nextCursor);
    }
  }

  // ---- Any interleaving of pushes and polls ----

  datatype Action = PushEvent(kind: string, summary: string) | PollPage(requested: Option<int>)

  /** The log, the reader's cursor and everything the reader has been handed. */
  datatype Reader = Reader(log: Log, cursor: nat, received: seq<AppEvent>)

  /** `updateEventCursor` never moves the cursor back. */
  function Act(r: Reader, topics: set<string>, a: Action): Reader {
    match a
    case PushEvent(kind, summary) => r.(log := Push(r.log, kind, summary))
    case PollPage(requested) =>
      var page := Poll(r.log, topics, r.cursor, requested);
      Reader(r.log, Max(r.cursor, page.nextCursor), r.received + page.events)
  }

  function After(r: Reader, topics: set<string>, actions: seq<Action>): Reader {
    if actions == [] then r else Act(After(r, topics, actions[..|actions| - 1]), topics, actions[|actions| - 1])
  }

  /** A run acts step by step. */
  lemma {:induction false} AfterOneMore(r: Reader, topics: set<string>, actions: seq<Action>, a: Action)
    ensures After(r, topics, []) == r
    ensures After(r, topics, actions + [a]) == Act(After(r, topics, actions), topics, a)
  {
    assert (actions + [a])[..|actions|] == actions;
  }

  lemma {:induction false} NothingBetween(es: seq<AppEvent>, topics: set<string>, c: nat)
    ensures Between(es, topics, c, c) == []
  {
    if es == [] {
    } else {
      NothingBetween(es[..|es| - 1], topics, c);
    }
  }

  /**
   Exactly once: for any interleaving of pushes and polls, what the reader has been handed is the matching part of
   the log between its first and its present cursor, in order, without gap or repetition.
   */
  lemma {:induction false} ExactlyOnce(r: Reader, topics: set<string>, actions: seq<Action>)
    requires Valid(r.log) && r.cursor <= r.log.cursor && r.received == []
    ensures var now := After(r, topics, actions);
            && Valid(now.log) && r.cursor <= now.cursor <= now.log.cursor && r.log.events <= now.log.events
            && now.received == Between(now.log.events, topics, r.cursor, now.cursor)
  {
    if actions == [] {
      NothingBetween(r.log.events, topics, r.cursor);
    } else {
      var init, a := actions[..|actions| - 1], actions[|actions| - 1];
      ExactlyOnce(r, topics, init);
      var now := After(r, topics, init);
      match a
      case PushEvent(kind, summary) =>
        PushKeepsValid(now.log, kind, summary);
        var es, e := now.log.events, Push(now.log, kind, summary).events[|now.log.events|];
        assert (es + [e])[..|es|] == es;
      case PollPage(requested) =>
        PageExact(now.log, topics, now.cursor, requested);
        var page := Poll(now.log, topics, now.cursor, requested);
        BetweenSplit(now.log.events, topics, r.cursor, now.cursor, page.nextCursor);
    }
  }

  /** The cursor never moves back. */
  lemma {:induction false} CursorMonotone(r: Reader, topics: set<string>, actions: seq<Action>, n: nat)
    requires n <= |actions|
    ensures After(r, topics, actions[..n]).cursor <= After(r, topics, actions).cursor
  {
    if n < |actions| {
      var init := actions[..|actions| - 1];
      CursorMonotone(r, topics, init, n);
      assert init[..n] == actions[..n];
    } else {
      assert actions[..n] == actions;
    }
  }

  // ---- Following pages ----

  const MAX_PAGES: nat := 8
  const POLL_LIMIT: int := 256

  /** Each page is read from a log that extends the one before it. */
  ghost predicate Growing(logs: seq<Log>) {
    && (forall i | 0 <= i < |logs| :: Valid(logs[i]))
    && forall i, j | 0 <= i < j < |logs| :: logs[i].events <= logs[j].events
  }

  lemma CursorsGrow(log: Log, later: Log)
    requires Valid(log) && Valid(later) && log.events <= later.events
    ensures log.cursor <= later.cursor
  {
    if log.events != [] && |log.events| < |later.events| {
      assert later.events[|log.events| - 1] == log.events[|log.events| - 1];
    }
  }

  /** Appending to the log does not change what lies up to a cursor inside it. */
  lemma {:induction false} LaterLogSame(log: Log, later: Log, topics: set<string>, lo: nat, hi: nat)
    requires Valid(log) && Valid(later) && log.events <= later.events && hi <= log.cursor
    ensures Between(later.events, topics, lo, hi) == Between(log.events, topics, lo, hi)
    decreases |later.events|
  {
    var n := |later.events|;
    if |log.events| < n {
      var shorter := Log(later.events[..n - 1], LastSequence(later.events[..n - 1]));
      LaterLogSame(log, shorter, topics, lo, hi);
      CursorsGrow(log, shorter);
      assert log.cursor <= shorter.cursor;
      if n == 1 {
        assert log.cursor == 0;
      } else {
        assert later.events[n - 2].sequence < later.events[n - 1].sequence;
      }
    } else {
      assert log.events == later.events;
    }
  }

  /**
   `pollAppEventFallback`: reads up to 8 pages of 256 events while other code may append to the log between pages.
   It ends either with nothing matching left in the log it last read, or with all 8 pages full.
   */
  method PollFallback(logs: seq<Log>, topics: set<string>, start: nat)
    returns (received: seq<AppEvent>, cursor: nat, pages: nat)
    requires |logs| == 8 && Growing(logs) && start <= logs[0].cursor
    ensures 1 <= pages <= 8
    ensures start <= cursor <= logs[pages - 1].cursor
    ensures received == Between(logs[pages - 1].events, topics, start, cursor)
    ensures Filtered(logs[pages - 1].events, topics, cursor) == [] || |received| == 8 * 256
  {
    received, cursor, pages := [], start, 0;
    NothingBetween(logs[0].events, topics, start);
    var more := true;
    while pages < MAX_PAGES && more
      invariant 0 <= pages <= MAX_PAGES
      invariant pages == 0 ==> received == [] && cursor == start && more
      invariant pages > 0 ==> start <= cursor <= logs[pages - 1].cursor
      invariant pages > 0 ==> received == Between(logs[pages - 1].events, topics, start, cursor)
      invariant pages > 0 && !more ==> Filtered(logs[pages - 1].events, topics, cursor) == []
      invariant more ==> |received| == pages * 256
      decreases MAX_PAGES - pages
    {
      var log := logs[pages];
      if pages > 0 {
        CursorsGrow(logs[pages - 1], log);
        LaterLogSame(logs[pages - 1], log, topics, start, cursor);
      }
      var page := Poll(log, topics, cursor, Some(POLL_LIMIT));
      PageExact(log, topics, cursor, Some(POLL_LIMIT));
      BetweenSplit(log.events, topics, start, cursor, page.nextCursor);
      NothingBetween(log.events, topics, start);
      received := received + page.events;
      cursor := page.nextCursor;
      more := page.hasMore;
      pages := pages + 1;
    }
  }

  class AppState {
    var events: seq<AppEvent>
    var cursor: nat

    function Contents(): Log
      reads this
    {
      Log(events, cursor)
    }

    constructor ()
      ensures Contents() == Log([], 0) && Valid(Contents())
    {
      events, cursor := [], 0;
    }

    method Record(kind: string, summary: string)
      requires Valid(Contents())
      modifies this
      ensures Contents() == Push(old(Contents()), kind, summary) && Valid(Contents())
    {
      PushKeepsValid(Contents(), kind, summary);
      var last := LastSequence(events);
      events := events + [AppEvent(last + 1, kind, summary)];
      cursor := last + 1;
    }
  }
}
