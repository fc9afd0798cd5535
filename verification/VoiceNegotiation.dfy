/**
 One end of a voice negotiation (apps/ui/src/voice-media.ts): the answerer's choice among competing offers and the
 buffer of early ICE candidates. Modelled is what the handlers do before their first `await`; the timer, the flush
 after an awaited description and the close are steps of their own, in any order.
 */
module VoiceNegotiation {
  import opened Prelude

  datatype Role = Offerer | Answerer

  /** A property of a JavaScript object; `===` tells a missing one from `null`. */
  datatype Field<T> = Undefined | Null | Value(value: T)

  /** `RTCIceCandidateInit`; duplicates are recognised by the first three fields. */
  datatype Candidate = Candidate(
    candidate: Field<string>, sdpMid: Field<string>, sdpMLineIndex: Field<nat>, usernameFragment: Field<string>)

  datatype Kind = OfferKind | AnswerKind | CandidateKind

  /** A `VoiceSignal`; `createdAt` is `None` when the number is not finite. */
  datatype Signal = Signal(
    sessionId: string, fromPeer: string, negotiationId: string, createdAt: Option<real>, kind: Kind,
    description: Option<string>, candidate: Option<Candidate>)

  datatype Offer = Offer(id: string, createdAt: real, description: string)

  datatype Entry = Entry(id: string, candidates: seq<Candidate>)

  /** The variables the handlers share; `buffer` is the `Map` in insertion order. */
  datatype Session = Session(
    role: Role, sessionId: string, remotePeer: string, active: Option<string>, activeCreatedAt: Option<real>,
    pending: Option<Offer>, timer: bool, buffer: seq<Entry>, closed: bool)

  const MAX_PENDING_NEGOTIATIONS: nat := 8
  const MAX_PENDING_CANDIDATES: nat := 64

  predicate Same(a: Candidate, b: Candidate) {
    a.candidate == b.candidate && a.sdpMid == b.sdpMid && a.sdpMLineIndex == b.sdpMLineIndex
  }

  /** A candidate repeats another exactly when they differ at most in the user name fragment. */
  lemma SameExact(a: Candidate, b: Candidate)
    ensures Same(a, b) <==> a.(usernameFragment := b.usernameFragment) == b
  {
  }

  predicate Holds(cs: seq<Candidate>, c: Candidate) {
    exists i | 0 <= i < |cs| :: Same(cs[i], c)
  }

  // ---- The candidate buffer ----

  /** The position of an id, or the length if there is none. */
  function Find(buffer: seq<Entry>, id: string): (i: nat)
    ensures i <= |buffer|
    ensures i < |buffer| ==> buffer[i].id == id
    ensures forall j | 0 <= j < i :: buffer[j].id != id
  {
    if buffer == [] || buffer[0].id == id then 0 else 1 + Find(buffer[1..], id)
  }

  predicate Buffered(buffer: seq<Entry>, id: string) {
    Find(buffer, id) < |buffer|
  }

  function Candidates(buffer: seq<Entry>, id: string): seq<Candidate>
    requires Buffered(buffer, id)
  {
    buffer[Find(buffer, id)].candidates
  }

  function PushCandidate(cs: seq<Candidate>, c: Candidate): seq<Candidate> {
    if |cs| < MAX_PENDING_CANDIDATES && !Holds(cs, c) then cs + [c] else cs
  }

  /** A new negotiation evicts the oldest one when the buffer is full. */
  function Opened(buffer: seq<Entry>, id: string): seq<Entry> {
    if Buffered(buffer, id) then buffer
    else
      var full := |buffer| >= MAX_PENDING_NEGOTIATIONS && buffer[0].id != "";
      (if full then buffer[1..] else buffer) + [Entry(id, [])]
  }

  lemma OpenedIsBuffered(buffer: seq<Entry>, id: string)
    ensures Buffered(Opened(buffer, id), id)
  {
    var b := Opened(buffer, id);
    if !Buffered(buffer, id) {
      assert b[|b| - 1].id == id;
    }
  }

  /** `queuePendingCandidate`. */
  function Queue(buffer: seq<Entry>, id: string, c: Candidate): seq<Entry> {
    OpenedIsBuffered(buffer, id);
    var b := Opened(buffer, id);
    var i := Find(b, id);
    b[i := Entry(id, PushCandidate(b[i].candidates, c))]
  }

  function Only(buffer: seq<Entry>, id: string): seq<Entry> {
    if Buffered(buffer, id) then [buffer[Find(buffer, id)]] else []
  }

  function Without(buffer: seq<Entry>, id: string): seq<Entry> {
    if Buffered(buffer, id) then buffer[..Find(buffer, id)] + buffer[Find(buffer, id) + 1..] else buffer
  }

  // ---- The handlers ----

  /** `acceptAnswererOffer` up to its first `await`. */
  function Accept(s: Session, o: Offer): Session {
    s.(buffer := if s.active != Some(o.id) then Only(s.buffer, o.id) else s.buffer,
       active := Some(o.id),
       activeCreatedAt := Some(o.createdAt))
  }

  /** `scheduleAnswererOffer`. */
  function Schedule(s: Session, o: Offer): Session {
    if s.pending.Some? && s.pending.value.createdAt > o.createdAt then s
    else s.(pending := Some(o), timer := true)
  }

  predicate Relevant(s: Session, g: Signal) {
    && !s.closed && g.sessionId == s.sessionId && g.fromPeer == s.remotePeer
    && g.negotiationId != "" && g.createdAt.Some?
  }

  /** The offer a signal makes to this session, if any. */
  function OfferIn(s: Session, g: Signal): Option<Offer> {
    if Relevant(s, g) && g.kind.OfferKind? && g.description.Some? && s.role.Answerer?
    then Some(Offer(g.negotiationId, g.createdAt.value, g.description.value))
    else None
  }

  function HandleOffer(s: Session, o: Offer): Session {
    if s.active.None? then Schedule(s, o)
    else if o.id == s.active.value then Accept(s, o)
    else if s.activeCreatedAt.Some? && o.createdAt > s.activeCreatedAt.value then Accept(s, o)
    else s
  }

  /** The candidate a signal puts into the buffer, if any; `described` is whether a remote description is set. */
  function QueuedBy(s: Session, g: Signal, described: bool): Option<Candidate> {
    if && Relevant(s, g) && g.kind.CandidateKind? && g.candidate.Some?
       && (s.active != Some(g.negotiationId) || !described)
       && (s.role.Answerer? || s.active == Some(g.negotiationId))
    then g.candidate
    else None
  }

  /** `handleRemoteSignal`. */
  function Handle(s: Session, g: Signal, described: bool): Session {
    if OfferIn(s, g).Some? then HandleOffer(s, OfferIn(s, g).value)
    else if QueuedBy(s, g, described).Some?
    then s.(buffer := Queue(s.buffer, g.negotiationId, QueuedBy(s, g, described).value))
    else s
  }

  /** The selection timer. */
  function Fire(s: Session): Session {
    if !s.timer then s
    else
      var s' := s.(timer := false, pending := None);
      if s.pending.Some? && !s.closed && s.active.None? then Accept(s', s.pending.value) else s'
  }

  datatype Event =
    | Receive(signal: Signal, described: bool)
    | TimerFires
    | Flush(id: string)
    | Close

  function Step(s: Session, e: Event): Session {
    match e
    case Receive(g, described) => Handle(s, g, described)
    case TimerFires => Fire(s)
    case Flush(id) => s.(buffer := Without(s.buffer, id))
    case Close => s.(closed := true, timer := false, buffer := [])
  }

  function After(s: Session, es: seq<Event>): Session {
    if es == [] then s else Step(After(s, es[..|es| - 1]), es[|es| - 1])
  }

  /** The state in which a session starts; an offerer knows its own negotiation id. */
  predicate Initial(s: Session) {
    && s.activeCreatedAt.None? && s.pending.None? && !s.timer && s.buffer == [] && !s.closed
    && (s.role.Answerer? <==> s.active.None?)
  }

  // ---- The answerer is a max-register ----

  /** A signal of this session, from its peer, with a negotiation id and a finite time stamp. */
  predicate Addressed(s: Session, g: Signal) {
    g.sessionId == s.sessionId && g.fromPeer == s.remotePeer && g.negotiationId != "" && g.createdAt.Some?
  }

  /** A described offer to an answerer. */
  predicate MakesOffer(s: Session, g: Signal) {
    s.role.Answerer? && Addressed(s, g) && g.kind == OfferKind && g.description.Some?
  }

  /** The offers made to an answerer before it closes, in order. */
  function Offers(s: Session, es: seq<Event>): seq<Offer> {
    if es == [] then []
    else
      var init, e := es[..|es| - 1], es[|es| - 1];
      if e.Receive? && !s.closed && Close !in init && MakesOffer(s, e.signal)
      then Offers(s, init) + [Offer(e.signal.negotiationId, e.signal.createdAt.value, e.signal.description.value)]
      else Offers(s, init)
  }

  lemma StepConstants(now: Session, e: Event)
    ensures var next := Step(now, e);
            && next.role == now.role && next.sessionId == now.sessionId && next.remotePeer == now.remotePeer
            && (next.closed <==> now.closed || e == Close)
  {
  }

  /** A session never changes its role, name or peer, and is closed exactly after a close. */
  lemma {:induction false} Constants(s: Session, es: seq<Event>)
    ensures var now := After(s, es);
            && now.role == s.role && now.sessionId == s.sessionId && now.remotePeer == s.remotePeer
            && (now.closed <==> s.closed || Close in es)
  {
    if es == [] {
    } else {
      var init, e := es[..|es| - 1], es[|es| - 1];
      Constants(s, init);
      StepConstants(After(s, init), e);
      assert es == init + [e];
    }
  }

  /** One more event: the state steps, and the offers are those the handler sees. */
  lemma {:induction false} AfterOneMore(s: Session, es: seq<Event>, e: Event)
    ensures After(s, es + [e]) == Step(After(s, es), e)
    ensures var now := After(s, es);
            Offers(s, es + [e])
            == if e.Receive? && OfferIn(now, e.signal).Some? then Offers(s, es) + [OfferIn(now, e.signal).value]
               else Offers(s, es)
  {
    assert (es + [e])[..|es|] == es;
    Constants(s, es);
  }

  function Newest(os: seq<Offer>): real
    requires os != []
  {
    if |os| == 1 then os[0].createdAt
    else
      var t := Newest(os[..|os| - 1]);
      if t >= os[|os| - 1].createdAt then t else os[|os| - 1].createdAt
  }

  lemma {:induction false} NewestIsMax(os: seq<Offer>, i: nat)
    requires i < |os|
    ensures os[i].createdAt <= Newest(os)
  {
    if i == |os| - 1 {
    } else {
      NewestIsMax(os[..|os| - 1], i);
    }
  }

  /** The id and time stamp the session currently stands for. */
  function Chosen(s: Session): Option<(string, real)> {
    if s.active.Some? && s.activeCreatedAt.Some? then Some((s.active.value, s.activeCreatedAt.value))
    else if s.pending.Some? then Some((s.pending.value.id, s.pending.value.createdAt))
    else None
  }

  /** The offer repeats the active negotiation with an older time stamp. */
  predicate Regresses(s: Session, e: Event) {
    && e.Receive? && !s.closed && MakesOffer(s, e.signal)
    && s.active == Some(e.signal.negotiationId)
    && s.activeCreatedAt.Some? && e.signal.createdAt.value < s.activeCreatedAt.value
  }

  predicate Made(os: seq<Offer>, choice: (string, real)) {
    exists i | 0 <= i < |os| :: os[i].id == choice.0 && os[i].createdAt == choice.1
  }

  /** Exactly one of pending and active is set once an offer arrived, and it is one of the offers received. */
  ghost predicate OneSlot(s: Session, os: seq<Offer>) {
    && (s.active.Some? <==> s.activeCreatedAt.Some?)
    && (os == [] ==> s.active.None? && s.pending.None?)
    && (os != [] ==> s.active.Some? != s.pending.Some?)
    && (s.pending.Some? && !s.closed ==> s.timer)
    && (s.timer ==> !s.closed)
    && (s.pending.Some? ==> s.pending.value in os)
    && (os != [] ==> Chosen(s).Some? && Made(os, Chosen(s).value))
  }

  lemma MadeGrows(os: seq<Offer>, o: Offer, choice: (string, real))
    ensures Made(os, choice) ==> Made(os + [o], choice)
    ensures Made(os + [o], (o.id, o.createdAt))
  {
    if Made(os, choice) {
      var i :| 0 <= i < |os| && os[i].id == choice.0 && os[i].createdAt == choice.1;
      assert (os + [o])[i] == os[i];
    }
    assert (os + [o])[|os|] == o;
  }

  lemma OneSlotStep(now: Session, os: seq<Offer>, e: Event)
    requires OneSlot(now, os) && now.role.Answerer?
    ensures var offer := if e.Receive? then OfferIn(now, e.signal) else None;
            OneSlot(Step(now, e), if offer.Some? then os + [offer.value] else os)
  {
    if e.Receive? && OfferIn(now, e.signal).Some? {
      var o := OfferIn(now, e.signal).value;
      MadeGrows(os, o, if os == [] then (o.id, o.createdAt) else Chosen(now).value);
      assert o in os + [o];
    }
  }

  lemma {:induction false} AlwaysOneSlot(s: Session, es: seq<Event>)
    requires Initial(s) && s.role.Answerer?
    ensures OneSlot(After(s, es), Offers(s, es)) && After(s, es).role.Answerer?
  {
    Constants(s, es);
    if es == [] {
    } else {
      var init, e := es[..|es| - 1], es[|es| - 1];
      AlwaysOneSlot(s, init);
      OneSlotStep(After(s, init), Offers(s, init), e);
      AfterOneMore(s, init, e);
      assert es == init + [e];
    }
  }

  /** The choice is the newest offer received so far. */
  ghost predicate HoldsNewest(s: Session, os: seq<Offer>) {
    os != [] ==> Chosen(s).Some? && Chosen(s).value.1 == Newest(os)
  }

  /**
   An offer takes over from an active one if it is newer or repeats it, and from a pending one unless it is older; no
   other event moves the choice.
   */
  lemma ChoiceExact(now: Session, os: seq<Offer>, e: Event)
    requires OneSlot(now, os) && now.role.Answerer?
    ensures var next := Chosen(Step(now, e));
            if e.Receive? && !now.closed && MakesOffer(now, e.signal) then
              var offer := (e.signal.negotiationId, e.signal.createdAt.value);
              var takesOver := || Chosen(now).None?
                               || offer.1 > Chosen(now).value.1
                               || (now.active.Some? && now.active.value == offer.0)
                               || (now.active.None? && offer.1 == Chosen(now).value.1);
              next == if takesOver then Some(offer) else Chosen(now)
            else next == Chosen(now)
  {
  }

  /** An offer moves the choice to the newer of the two, unless it regresses; no other event moves the choice. */
  lemma ChoiceStep(now: Session, os: seq<Offer>, e: Event)
    requires OneSlot(now, os) && now.role.Answerer?
    ensures var next := Chosen(Step(now, e));
            if e.Receive? && OfferIn(now, e.signal).Some? then
              var t := OfferIn(now, e.signal).value.createdAt;
              && next.Some?
              && next.value.1 == if os == [] || Regresses(now, e) || t > Chosen(now).value.1 then t
                                 else Chosen(now).value.1
            else next == Chosen(now)
  {
  }

  /** One more offer moves the maximum to it exactly when it is newer. */
  lemma NewestOneMore(os: seq<Offer>, o: Offer)
    ensures Newest(os + [o]) == if os == [] || o.createdAt > Newest(os) then o.createdAt else Newest(os)
  {
    assert (os + [o])[..|os|] == os;
  }

  lemma NewestAfter(now: Session, os: seq<Offer>, e: Event)
    requires OneSlot(now, os) && now.role.Answerer? && HoldsNewest(now, os)
    ensures var offer := if e.Receive? then OfferIn(now, e.signal) else None;
            HoldsNewest(Step(now, e), if offer.Some? then os + [offer.value] else os) <==> !Regresses(now, e)
  {
    ChoiceStep(now, os, e);
    if e.Receive? && OfferIn(now, e.signal).Some? {
      NewestOneMore(os, OfferIn(now, e.signal).value);
    }
  }

  lemma {:induction false} NewestStep(s: Session, init: seq<Event>, e: Event)
    requires Initial(s) && s.role.Answerer?
    requires HoldsNewest(After(s, init), Offers(s, init))
    ensures HoldsNewest(After(s, init + [e]), Offers(s, init + [e])) <==> !Regresses(After(s, init), e)
  {
    AlwaysOneSlot(s, init);
    NewestAfter(After(s, init), Offers(s, init), e);
    AfterOneMore(s, init, e);
  }

  /** After `n` events of the run the choice is the newest offer received by then. */
  ghost predicate NewestAt(s: Session, es: seq<Event>, n: nat)
    requires n <= |es|
  {
    HoldsNewest(After(s, es[..n]), Offers(s, es[..n]))
  }

  /** Event `n` of the run regresses. */
  predicate RegressesAt(s: Session, es: seq<Event>, n: nat)
    requires n < |es|
  {
    Regresses(After(s, es[..n]), es[n])
  }

  lemma NewestNext(s: Session, es: seq<Event>, n: nat)
    requires Initial(s) && s.role.Answerer? && n < |es| && NewestAt(s, es, n)
    ensures NewestAt(s, es, n + 1) <==> !RegressesAt(s, es, n)
  {
    NewestStep(s, es[..n], es[n]);
    assert es[..n] + [es[n]] == es[..n + 1];
  }

  lemma {:induction false} NewestKept(s: Session, es: seq<Event>, n: nat)
    requires Initial(s) && s.role.Answerer? && n <= |es|
    requires forall k | 0 <= k < n :: !RegressesAt(s, es, k)
    ensures NewestAt(s, es, n)
  {
    if n == 0 {
    } else {
      NewestKept(s, es, n - 1);
      NewestNext(s, es, n - 1);
    }
  }

  /**
   The answerer keeps a maximum: at every moment of a run it stands for the newest offer received so far, exactly
   when no offer of the run repeats the then active negotiation with an older time stamp.
   */
  lemma MaxRegisterExact(s: Session, es: seq<Event>)
    requires Initial(s) && s.role.Answerer?
    ensures (forall n | 0 <= n <= |es| :: NewestAt(s, es, n)) <==> (forall n | 0 <= n < |es| :: !RegressesAt(s, es, n))
  {
    if n: nat :| n < |es| && RegressesAt(s, es, n) {
      if NewestAt(s, es, n) {
        NewestNext(s, es, n);
      }
    } else {
      forall n | 0 <= n <= |es| ensures NewestAt(s, es, n) {
        NewestKept(s, es, n);
      }
    }
  }

  function OfferSignal(s: Session, id: string, createdAt: real): Signal {
    Signal(s.sessionId, s.remotePeer, id, Some(createdAt), OfferKind, Some(""), None)
  }

  /** An offer, the timer that accepts it, and the same offer with an older time stamp. */
  function Regression(s: Session): seq<Event> {
    [Receive(OfferSignal(s, "a", 5.0), false)] + [TimerFires] + [Receive(OfferSignal(s, "a", 3.0), false)]
  }

  /** It does happen: the answerer falls back to time stamp 3 although it has received an offer of time stamp 5. */
  lemma RegressionHappens(s: Session)
    requires Initial(s) && s.role.Answerer?
    ensures var es := Regression(s);
            && RegressesAt(s, es, 2)
            && Chosen(After(s, es)) == Some(("a", 3.0)) && Newest(Offers(s, es)) == 5.0
  {
    var first, again := Receive(OfferSignal(s, "a", 5.0), false), Receive(OfferSignal(s, "a", 3.0), false);
    AfterOneMore(s, [], first);
    assert [] + [first] == [first];
    AfterOneMore(s, [first], TimerFires);
    var two := [first] + [TimerFires];
    AfterOneMore(s, two, again);
    assert Regression(s) == two + [again] && Regression(s)[..2] == two;
    var o, o' := Offer("a", 5.0, ""), Offer("a", 3.0, "");
    assert Offers(s, Regression(s)) == [o, o'] && [o, o'][..1] == [o];
  }

  /** Every negotiation id comes with one time stamp. */
  predicate OneTimestampEach(os: seq<Offer>) {
    forall i, j | 0 <= i < |os| && 0 <= j < |os| && os[i].id == os[j].id :: os[i].createdAt == os[j].createdAt
  }

  lemma {:induction false} OffersGrow(s: Session, es: seq<Event>, n: nat)
    requires n <= |es|
    ensures Offers(s, es[..n]) <= Offers(s, es)
  {
    if n < |es| {
      var init := es[..|es| - 1];
      OffersGrow(s, init, n);
      assert init[..n] == es[..n];
    } else {
      assert es[..n] == es;
    }
  }

  lemma {:induction false} NoRegression(s: Session, es: seq<Event>, n: nat)
    requires Initial(s) && s.role.Answerer? && n < |es| && OneTimestampEach(Offers(s, es))
    ensures !RegressesAt(s, es, n)
  {
    var now, os := After(s, es[..n]), Offers(s, es[..n]);
    AlwaysOneSlot(s, es[..n]);
    if es[n].Receive? && OfferIn(now, es[n].signal).Some? && now.active == Some(OfferIn(now, es[n].signal).value.id) {
      var o := OfferIn(now, es[n].signal).value;
      var all := Offers(s, es);
      OffersGrow(s, es, n + 1);
      AfterOneMore(s, es[..n], es[n]);
      assert es[..n + 1] == es[..n] + [es[n]];
      assert all[|os|] == o;
      var i :| 0 <= i < |os| && os[i].id == o.id && os[i].createdAt == now.activeCreatedAt.value;
      assert all[i] == os[i];
    }
  }

  /** With one time stamp per negotiation, the answerer always stands for the newest offer received. */
  lemma ChoosesNewest(s: Session, es: seq<Event>)
    requires Initial(s) && s.role.Answerer? && OneTimestampEach(Offers(s, es))
    ensures HoldsNewest(After(s, es), Offers(s, es)) && OneSlot(After(s, es), Offers(s, es))
  {
    forall n | 0 <= n < |es| ensures !RegressesAt(s, es, n) {
      NoRegression(s, es, n);
    }
    NewestKept(s, es, |es|);
    assert es[..|es|] == es;
    AlwaysOneSlot(s, es);
  }

  predicate BeatsAll(os: seq<Offer>, i: nat)
    requires i < |os|
  {
    && (forall j | 0 <= j < i :: os[j].createdAt <= os[i].createdAt)
    && (forall j | i < j < |os| :: os[j].createdAt < os[i].createdAt)
  }

  /** The last of the newest offers. */
  predicate LastNewest(os: seq<Offer>, o: Offer) {
    exists i | 0 <= i < |os| :: os[i] == o && BeatsAll(os, i)
  }

  lemma LastNewestOneMore(os: seq<Offer>, o: Offer, pending: Offer)
    requires LastNewest(os, pending)
    ensures LastNewest(os + [o], if pending.createdAt > o.createdAt then pending else o)
  {
    var i :| 0 <= i < |os| && os[i] == pending && BeatsAll(os, i);
    var all := os + [o];
    if pending.createdAt > o.createdAt {
      assert all[i] == pending && BeatsAll(all, i);
    } else {
      assert forall j | 0 <= j < |os| :: os[j].createdAt <= os[i].createdAt;
      assert all[|os|] == o && BeatsAll(all, |os|);
    }
  }

  /** While no negotiation is active, the pending offer is the last of the newest ones received. */
  lemma {:induction false} PendingIsLastNewest(s: Session, es: seq<Event>)
    requires Initial(s) && s.role.Answerer?
    ensures After(s, es).pending.Some? ==> LastNewest(Offers(s, es), After(s, es).pending.value)
  {
    if es == [] {
    } else {
      var init, e := es[..|es| - 1], es[|es| - 1];
      PendingIsLastNewest(s, init);
      AlwaysOneSlot(s, init);
      AfterOneMore(s, init, e);
      assert es == init + [e];
      var now, os := After(s, init), Offers(s, init);
      if e.Receive? && OfferIn(now, e.signal).Some? {
        var o := OfferIn(now, e.signal).value;
        if now.pending.Some? {
          LastNewestOneMore(os, o, now.pending.value);
        } else if os == [] {
          assert ([] + [o])[0] == o && BeatsAll([] + [o], 0);
        }
      }
    }
  }

  /** Different negotiations come with different time stamps. */
  predicate DistinctTimestamps(os: seq<Offer>) {
    forall i, j | 0 <= i < |os| && 0 <= j < |os| && os[i].createdAt == os[j].createdAt :: os[i].id == os[j].id
  }

  lemma {:induction false} NewestIsMade(os: seq<Offer>) returns (i: nat)
    requires os != []
    ensures i < |os| && os[i].createdAt == Newest(os)
  {
    if |os| == 1 || os[|os| - 1].createdAt >= Newest(os[..|os| - 1]) {
      i := |os| - 1;
    } else {
      i := NewestIsMade(os[..|os| - 1]);
    }
  }

  lemma SameNewest(os: seq<Offer>, os': seq<Offer>)
    requires os != [] && os' != []
    requires forall o :: o in os <==> o in os'
    ensures Newest(os) == Newest(os')
  {
    var i := NewestIsMade(os);
    var i' := NewestIsMade(os');
    assert os[i] in os' && os'[i'] in os;
    var k :| 0 <= k < |os'| && os'[k] == os[i];
    var k' :| 0 <= k' < |os| && os[k'] == os'[i'];
    NewestIsMax(os', k);
    NewestIsMax(os, k');
  }

  /**
   Two runs that receive the same offers choose the same negotiation, whatever the order and repetition of
   arrivals and whenever the selection timers fire.
   */
  lemma ChoiceIndependentOfOrder(s: Session, es: seq<Event>, es': seq<Event>)
    requires Initial(s) && s.role.Answerer?
    requires OneTimestampEach(Offers(s, es)) && DistinctTimestamps(Offers(s, es)) && Offers(s, es) != []
    requires forall o :: o in Offers(s, es) <==> o in Offers(s, es')
    ensures Chosen(After(s, es)) == Chosen(After(s, es'))
  {
    var os, os' := Offers(s, es), Offers(s, es');
    assert os[0] in os;
    assert os' != [];
    forall i, j | 0 <= i < |os'| && 0 <= j < |os'| && os'[i].id == os'[j].id
      ensures os'[i].createdAt == os'[j].createdAt
    {
      assert os'[i] in os && os'[j] in os;
    }
    ChoosesNewest(s, es);
    ChoosesNewest(s, es');
    SameNewest(os, os');
    var c, c' := Chosen(After(s, es)).value, Chosen(After(s, es')).value;
    var i :| 0 <= i < |os| && os[i].id == c.0 && os[i].createdAt == c.1;
    var k :| 0 <= k < |os'| && os'[k].id == c'.0 && os'[k].createdAt == c'.1;
    assert os'[k] in os';
    var j :| 0 <= j < |os| && os[j] == os'[k];
  }

  // ---- What the buffer holds ----

  /** The keys of a `Map` are unique. */
  predicate Unique(buffer: seq<Entry>) {
    forall i, j | 0 <= i < j < |buffer| :: buffer[i].id != buffer[j].id
  }

  /** At most 8 entries, each for an id of its own; signals without an id are dropped before they reach the buffer. */
  predicate WellKept(buffer: seq<Entry>) {
    && |buffer| <= MAX_PENDING_NEGOTIATIONS
    && (forall i | 0 <= i < |buffer| :: buffer[i].id != "")
    && Unique(buffer)
  }

  lemma FindAt(buffer: seq<Entry>, i: nat, id: string)
    requires Unique(buffer) && i < |buffer| && buffer[i].id == id
    ensures Find(buffer, id) == i
  {
  }

  /** Every entry of `next` stems from the same entry of `buffer`. */
  ghost predicate Inherits(next: seq<Entry>, buffer: seq<Entry>) {
    forall i | 0 <= i < |next| :: next[i] in buffer
  }

  lemma InheritedCandidates(next: seq<Entry>, buffer: seq<Entry>, id: string)
    requires WellKept(buffer) && WellKept(next) && Inherits(next, buffer) && Buffered(next, id)
    ensures Buffered(buffer, id) && Candidates(next, id) == Candidates(buffer, id)
  {
    var e := next[Find(next, id)];
    var k :| 0 <= k < |buffer| && buffer[k] == e;
    FindAt(buffer, k, id);
  }

  lemma OnlyInherits(buffer: seq<Entry>, id: string)
    requires WellKept(buffer)
    ensures WellKept(Only(buffer, id)) && Inherits(Only(buffer, id), buffer)
  {
    var next := Only(buffer, id);
    forall i | 0 <= i < |next| ensures next[i] in buffer && next[i].id != "" {
      assert next[i] == buffer[Find(buffer, id)];
    }
  }

  /** The entry of `Without` at a position is the one before or after the gap. */
  lemma WithoutAt(buffer: seq<Entry>, id: string, i: nat)
    requires i < |Without(buffer, id)|
    ensures Without(buffer, id)[i] == buffer[if i < Find(buffer, id) then i else i + 1]
  {
  }

  lemma WithoutUnique(buffer: seq<Entry>, id: string)
    requires Unique(buffer)
    ensures Unique(Without(buffer, id))
  {
    var next := Without(buffer, id);
    forall i, j | 0 <= i < j < |next| ensures next[i].id != next[j].id {
      WithoutAt(buffer, id, i);
      WithoutAt(buffer, id, j);
    }
  }

  lemma WithoutInherits(buffer: seq<Entry>, id: string)
    requires WellKept(buffer)
    ensures WellKept(Without(buffer, id)) && Inherits(Without(buffer, id), buffer)
  {
    WithoutUnique(buffer, id);
    var next := Without(buffer, id);
    forall i | 0 <= i < |next| ensures next[i] in buffer && next[i].id != "" {
      WithoutAt(buffer, id, i);
    }
  }

  lemma OpenedUnique(buffer: seq<Entry>, id: string)
    requires Unique(buffer)
    ensures Unique(Opened(buffer, id))
  {
    var b := Opened(buffer, id);
    if !Buffered(buffer, id) {
      var d := |buffer| + 1 - |b|;
      forall i, j | 0 <= i < j < |b| ensures b[i].id != b[j].id {
        assert b[i] == buffer[i + d];
        assert j < |b| - 1 ==> b[j] == buffer[j + d];
      }
    }
  }

  lemma QueueUnique(buffer: seq<Entry>, id: string, c: Candidate)
    requires Unique(buffer)
    ensures Unique(Queue(buffer, id, c))
  {
    OpenedUnique(buffer, id);
    OpenedIsBuffered(buffer, id);
    var b, next := Opened(buffer, id), Queue(buffer, id, c);
    forall i, j | 0 <= i < j < |next| ensures next[i].id != next[j].id {
      assert next[i].id == b[i].id && next[j].id == b[j].id;
    }
  }

  /** Opening an entry adds no other. */
  lemma OpenedInherits(buffer: seq<Entry>, id: string, j: nat)
    requires j < |Opened(buffer, id)| && Opened(buffer, id)[j].id != id
    ensures Opened(buffer, id)[j] in buffer
  {
    var b := Opened(buffer, id);
    if !Buffered(buffer, id) {
      assert b[j] == buffer[j + |buffer| + 1 - |b|];
    }
  }

  /** Queueing touches the queue of its own negotiation, and at most evicts others. */
  lemma QueueEffect(buffer: seq<Entry>, id: string, c: Candidate, other: string)
    requires WellKept(buffer) && id != ""
    ensures var next := Queue(buffer, id, c);
            && WellKept(next)
            && Buffered(next, id)
            && Candidates(next, id) == PushCandidate(if Buffered(buffer, id) then Candidates(buffer, id) else [], c)
            && (other != id && Buffered(next, other) ==>
                  Buffered(buffer, other) && Candidates(next, other) == Candidates(buffer, other))
  {
    QueueUnique(buffer, id, c);
    OpenedIsBuffered(buffer, id);
    var b := Opened(buffer, id);
    var i := Find(b, id);
    var next := Queue(buffer, id, c);
    assert next[i].id == id;
    FindAt(next, i, id);
    if other != id && Buffered(next, other) {
      var j := Find(next, other);
      assert next[j] == b[j];
      OpenedInherits(buffer, id, j);
      var k :| 0 <= k < |buffer| && buffer[k] == b[j];
      FindAt(buffer, k, other);
    }
  }

  /** The buffered negotiations, oldest first. */
  function Ids(buffer: seq<Entry>): seq<string> {
    seq(|buffer|, i requires 0 <= i < |buffer| => buffer[i].id)
  }

  /**
   A candidate of a buffered negotiation leaves the list of negotiations as it is. That of a new one appends it, and
   only when 8 are held does another one go, namely the oldest.
   */
  lemma QueueIds(buffer: seq<Entry>, id: string, c: Candidate)
    requires WellKept(buffer) && id != ""
    ensures var ids := Ids(buffer);
            Ids(Queue(buffer, id, c))
            == if id in ids then ids else if |ids| == 8 then ids[1..] + [id] else ids + [id]
  {
    OpenedIsBuffered(buffer, id);
    var ids, b := Ids(buffer), Opened(buffer, id);
    assert Buffered(buffer, id) <==> id in ids by {
      if Buffered(buffer, id) {
        assert ids[Find(buffer, id)] == id;
      }
    }
    assert Ids(Queue(buffer, id, c)) == Ids(b);
    assert Ids(b) == if id in ids then ids else if |ids| == 8 then ids[1..] + [id] else ids + [id];
  }

  /** Distinct candidates in the order of their first arrival. */
  function Deduplicated(cs: seq<Candidate>): seq<Candidate> {
    if cs == [] then []
    else
      var init, c := cs[..|cs| - 1], cs[|cs| - 1];
      if Holds(init, c) then Deduplicated(init) else Deduplicated(init) + [c]
  }

  function First(n: nat, cs: seq<Candidate>): seq<Candidate> {
    if |cs| <= n then cs else cs[..n]
  }

  lemma HoldsMore(cs: seq<Candidate>, last: Candidate, c: Candidate)
    ensures Holds(cs + [last], c) <==> Holds(cs, c) || Same(last, c)
  {
    if Holds(cs, c) {
      var i :| 0 <= i < |cs| && Same(cs[i], c);
      assert Same((cs + [last])[i], c);
    }
    if Same(last, c) {
      assert Same((cs + [last])[|cs|], c);
    }
  }

  lemma {:induction false} DeduplicatedHolds(cs: seq<Candidate>, c: Candidate)
    ensures Holds(Deduplicated(cs), c) <==> Holds(cs, c)
  {
    if cs == [] {
    } else {
      var init, last := cs[..|cs| - 1], cs[|cs| - 1];
      DeduplicatedHolds(init, c);
      DeduplicatedHolds(init, last);
      HoldsMore(init, last, c);
      HoldsMore(Deduplicated(init), last, c);
      assert cs == init + [last];
      if Holds(init, last) && Same(last, c) {
        var i :| 0 <= i < |init| && Same(init[i], last);
        assert Same(init[i], c);
      }
    }
  }

  /** Pushing under the two limits keeps the first 64 distinct arrivals. */
  lemma PushKeepsFirst(cs: seq<Candidate>, c: Candidate)
    ensures PushCandidate(First(MAX_PENDING_CANDIDATES, Deduplicated(cs)), c)
            == First(MAX_PENDING_CANDIDATES, Deduplicated(cs + [c]))
  {
    assert (cs + [c])[..|cs|] == cs;
    DeduplicatedHolds(cs, c);
  }

  /**
   A candidate that cannot be used yet: its negotiation is not the active one or has no remote description. An
   offerer keeps only those of its own negotiation.
   */
  predicate Waits(now: Session, g: Signal, described: bool) {
    && !now.closed && Addressed(now, g) && g.kind == CandidateKind && g.candidate.Some?
    && (now.active == Some(g.negotiationId) ==> !described)
    && (now.role == Offerer ==> now.active == Some(g.negotiationId))
  }

  lemma QueuedByExact(now: Session, g: Signal, described: bool)
    ensures QueuedBy(now, g, described) == if Waits(now, g, described) then g.candidate else None
  {
  }

  /** The candidates of waiting signals for a negotiation since its current entry was created. */
  function Arrivals(s: Session, es: seq<Event>, id: string): seq<Candidate> {
    if es == [] || !Buffered(After(s, es).buffer, id) then []
    else
      var init, e := es[..|es| - 1], es[|es| - 1];
      var now := After(s, init);
      if e.Receive? && e.signal.negotiationId == id && Waits(now, e.signal, e.described) then
        var c := e.signal.candidate.value;
        if Buffered(now.buffer, id) then Arrivals(s, init, id) + [c] else [c]
      else Arrivals(s, init, id)
  }

  /** Everything but queueing only removes entries. */
  lemma RemovedOnly(now: Session, e: Event)
    requires WellKept(now.buffer)
    requires e.Receive? ==> QueuedBy(now, e.signal, e.described).None?
    ensures WellKept(Step(now, e).buffer) && Inherits(Step(now, e).buffer, now.buffer)
  {
    var b, next := now.buffer, Step(now, e).buffer;
    match e
    case Receive(g, _) =>
      if OfferIn(now, g).Some? {
        OnlyInherits(b, OfferIn(now, g).value.id);
      }
    case TimerFires =>
      if now.pending.Some? {
        OnlyInherits(b, now.pending.value.id);
      }
    case Flush(id) => WithoutInherits(b, id);
    case Close =>
  }

  /** Over every interleaving at most 8 negotiations are buffered, each once. */
  lemma {:induction false} AlwaysWellKept(s: Session, es: seq<Event>)
    requires Initial(s)
    ensures WellKept(After(s, es).buffer)
  {
    if es == [] {
    } else {
      var init, e := es[..|es| - 1], es[|es| - 1];
      AlwaysWellKept(s, init);
      var now := After(s, init);
      if e.Receive? && QueuedBy(now, e.signal, e.described).Some? {
        var c := QueuedBy(now, e.signal, e.described).value;
        QueueEffect(now.buffer, e.signal.negotiationId, c, "");
      } else {
        RemovedOnly(now, e);
      }
    }
  }

  /** What one negotiation's entry holds at a moment of the run. */
  ghost predicate HoldsFirstArrivals(s: Session, es: seq<Event>, id: string) {
    var b := After(s, es).buffer;
    Buffered(b, id) ==> Candidates(b, id) == First(MAX_PENDING_CANDIDATES, Deduplicated(Arrivals(s, es, id)))
  }

  lemma {:induction false} ArrivalsOneMore(s: Session, init: seq<Event>, e: Event, c: Candidate)
    requires e.Receive? && QueuedBy(After(s, init), e.signal, e.described) == Some(c)
    requires Buffered(After(s, init + [e]).buffer, e.signal.negotiationId)
    ensures var id := e.signal.negotiationId;
            Arrivals(s, init + [e], id)
            == (if Buffered(After(s, init).buffer, id) then Arrivals(s, init, id) else []) + [c]
  {
    assert (init + [e])[..|init|] == init;
    assert [] + [c] == [c];
  }

  /** Queueing a candidate keeps the law for its own negotiation. */
  lemma {:induction false} QueueingHolds(s: Session, init: seq<Event>, e: Event, c: Candidate)
    requires WellKept(After(s, init).buffer)
    requires e.Receive? && QueuedBy(After(s, init), e.signal, e.described) == Some(c)
    requires HoldsFirstArrivals(s, init, e.signal.negotiationId)
    ensures HoldsFirstArrivals(s, init + [e], e.signal.negotiationId)
  {
    var b, id := After(s, init).buffer, e.signal.negotiationId;
    AfterOneMore(s, init, e);
    QueueEffect(b, id, c, id);
    ArrivalsOneMore(s, init, e, c);
    PushKeepsFirst(if Buffered(b, id) then Arrivals(s, init, id) else [], c);
  }

  /** An event that queues nothing for a negotiation leaves its entry as it is, or removes it. */
  lemma EntryKept(now: Session, e: Event, id: string)
    requires WellKept(now.buffer)
    requires e.Receive? && QueuedBy(now, e.signal, e.described).Some? ==> e.signal.negotiationId != id
    ensures var b, next := now.buffer, Step(now, e).buffer;
            Buffered(next, id) ==> Buffered(b, id) && Candidates(next, id) == Candidates(b, id)
  {
    if e.Receive? && QueuedBy(now, e.signal, e.described).Some? {
      QueueEffect(now.buffer, e.signal.negotiationId, QueuedBy(now, e.signal, e.described).value, id);
    } else {
      RemovedOnly(now, e);
      if Buffered(Step(now, e).buffer, id) {
        InheritedCandidates(Step(now, e).buffer, now.buffer, id);
      }
    }
  }

  lemma {:induction false} OthersHold(s: Session, init: seq<Event>, e: Event, id: string)
    requires WellKept(After(s, init).buffer) && HoldsFirstArrivals(s, init, id)
    requires e.Receive? && QueuedBy(After(s, init), e.signal, e.described).Some? ==> e.signal.negotiationId != id
    ensures HoldsFirstArrivals(s, init + [e], id)
  {
    assert (init + [e])[..|init|] == init;
    EntryKept(After(s, init), e, id);
  }

  /**
   Over every interleaving of signals, timers, flushes and a close, at most 8 negotiations are buffered, each once,
   and each holds exactly the first 64 distinct candidates that arrived since its entry was created, in order.
   */
  lemma {:induction false} BufferExact(s: Session, es: seq<Event>, id: string)
    requires Initial(s)
    ensures WellKept(After(s, es).buffer) && HoldsFirstArrivals(s, es, id)
  {
    AlwaysWellKept(s, es);
    if es == [] {
    } else {
      var init, e := es[..|es| - 1], es[|es| - 1];
      BufferExact(s, init, id);
      assert es == init + [e];
      if e.Receive? && QueuedBy(After(s, init), e.signal, e.described).Some? && e.signal.negotiationId == id {
        QueueingHolds(s, init, e, QueuedBy(After(s, init), e.signal, e.described).value);
      } else {
        OthersHold(s, init, e, id);
      }
    }
  }

  /**
   In every reachable session a waiting candidate is not lost: its negotiation is buffered afterwards, with an equal
   candidate or 64 others.
   */
  lemma WaitingIsKept(s: Session, es: seq<Event>, g: Signal, described: bool)
    requires Initial(s) && Waits(After(s, es), g, described)
    ensures var b := Step(After(s, es), Receive(g, described)).buffer;
            && Buffered(b, g.negotiationId)
            && var cs := Candidates(b, g.negotiationId);
               Holds(cs, g.candidate.value) || |cs| == 64
  {
    var now, c := After(s, es), g.candidate.value;
    AlwaysWellKept(s, es);
    QueuedByExact(now, g, described);
    BufferExact(s, es, g.negotiationId);
    QueueEffect(now.buffer, g.negotiationId, c, g.negotiationId);
    var cs := if Buffered(now.buffer, g.negotiationId) then Candidates(now.buffer, g.negotiationId) else [];
    assert |cs| <= 64;
    HoldsMore(cs, c, c);
  }

  /** A candidate signal that does not wait changes nothing. */
  lemma OthersIgnored(now: Session, g: Signal, described: bool)
    requires g.kind == CandidateKind && !Waits(now, g, described)
    ensures Step(now, Receive(g, described)) == now
  {
    QueuedByExact(now, g, described);
  }

  /** An open answerer keeps every candidate until its negotiation is active and described. */
  lemma AnswererKeepsAll(s: Session, es: seq<Event>, g: Signal, described: bool)
    requires Initial(s) && s.role == Answerer && Close !in es
    requires Addressed(s, g) && g.kind == CandidateKind && g.candidate.Some?
    ensures Waits(After(s, es), g, described)
            <==> After(s, es).active == Some(g.negotiationId) ==> !described
  {
    Constants(s, es);
  }

  /** An offerer only ever buffers candidates of the negotiation it started. */
  lemma {:induction false} OffererBuffersItsOwn(s: Session, es: seq<Event>, id: string)
    requires Initial(s) && s.role.Offerer?
    ensures After(s, es).active == s.active && After(s, es).role.Offerer? && After(s, es).pending.None?
    ensures Buffered(After(s, es).buffer, id) ==> Some(id) == s.active
  {
    if es == [] {
    } else {
      var init, e := es[..|es| - 1], es[|es| - 1];
      OffererBuffersItsOwn(s, init, id);
      AlwaysWellKept(s, init);
      var now := After(s, init);
      if e.Receive? && QueuedBy(now, e.signal, e.described).Some? {
        QueueEffect(now.buffer, e.signal.negotiationId, QueuedBy(now, e.signal, e.described).value, id);
      } else {
        RemovedOnly(now, e);
        if Buffered(After(s, es).buffer, id) {
          InheritedCandidates(After(s, es).buffer, now.buffer, id);
        }
      }
    }
  }

  /** Accepting an offer of another negotiation leaves that negotiation's entry, unchanged, and no other. */
  lemma AcceptKeepsOne(s: Session, o: Offer, id: string)
    requires s.active != Some(o.id)
    ensures var next := Accept(s, o).buffer;
            && (Buffered(next, id) <==> id == o.id && Buffered(s.buffer, id))
            && (Buffered(next, o.id) ==> Candidates(next, o.id) == Candidates(s.buffer, o.id))
  {
    var next := Accept(s, o).buffer;
    if Buffered(s.buffer, o.id) {
      assert next == [s.buffer[Find(s.buffer, o.id)]] && next[1..] == [];
    }
  }

  // ---- The session object ----

  // ---- The other events ----

  /** The timer turns the pending offer of an open session into the active one. */
  lemma TimerAccepts(s: Session, es: seq<Event>)
    requires Initial(s) && s.role == Answerer
    ensures var now := After(s, es);
            var next := Step(now, TimerFires);
            if Close !in es && now.pending.Some? then
              && next.pending.None? && !next.timer && next.active == Some(now.pending.value.id)
              && next.activeCreatedAt == Some(now.pending.value.createdAt)
            else next == now.(timer := false)
  {
    AlwaysOneSlot(s, es);
    Constants(s, es);
  }

  /** When another negotiation becomes active, its entry stays as it is and all others go. */
  lemma SwitchKeepsOne(now: Session, e: Event, id: string)
    requires Step(now, e).active.Some? && Step(now, e).active != now.active
    ensures var next, chosen := Step(now, e).buffer, Step(now, e).active.value;
            && (Buffered(next, id) <==> id == chosen && Buffered(now.buffer, id))
            && (Buffered(next, chosen) ==> Candidates(next, chosen) == Candidates(now.buffer, chosen))
  {
    var o := if e.Receive? then OfferIn(now, e.signal).value else now.pending.value;
    AcceptKeepsOne(now, o, id);
  }

  /** Unless a candidate waits, the active negotiation changes, or a flush or a close happens, the buffer stays. */
  lemma BufferOtherwiseKept(now: Session, e: Event)
    requires Step(now, e).active == now.active && !e.Flush? && !e.Close?
    requires e.Receive? ==> !Waits(now, e.signal, e.described)
    ensures Step(now, e).buffer == now.buffer
  {
  }

  /** Flushing removes the entry of its negotiation and no other. */
  lemma FlushExact(now: Session, flushed: string, id: string)
    requires Unique(now.buffer)
    ensures var next := Step(now, Flush(flushed));
            && next == now.(buffer := next.buffer)
            && (Buffered(next.buffer, id) <==> id != flushed && Buffered(now.buffer, id))
            && (Buffered(next.buffer, id) ==> Candidates(next.buffer, id) == Candidates(now.buffer, id))
  {
    var b, next := now.buffer, Without(now.buffer, flushed);
    WithoutUnique(b, flushed);
    if Buffered(next, id) {
      var i := Find(next, id);
      WithoutAt(b, flushed, i);
      FindAt(b, if i < Find(b, flushed) then i else i + 1, id);
    } else if Buffered(b, id) && id != flushed {
      var j, k := Find(b, id), Find(b, flushed);
      if k < |b| {
        WithoutAt(b, flushed, if j < k then j else j - 1);
      }
    }
  }

  lemma {:induction false} ClosedIsEmpty(s: Session, es: seq<Event>)
    requires Initial(s) && Close in es
    ensures After(s, es).buffer == [] && !After(s, es).timer
  {
    var init, e := es[..|es| - 1], es[|es| - 1];
    Constants(s, init);
    if e == Close {
    } else {
      assert es == init + [e];
      ClosedIsEmpty(s, init);
    }
  }

  /** A close empties the buffer and stops the timer; afterwards nothing happens any more. */
  lemma ClosedForGood(s: Session, es: seq<Event>, e: Event)
    requires Initial(s) && s.role == Answerer && Close in es
    ensures var now := After(s, es);
            Step(now, e) == now && now.closed && !now.timer && now.buffer == []
  {
    AlwaysOneSlot(s, es);
    Constants(s, es);
    ClosedIsEmpty(s, es);
  }

  class VoiceSession {
    const role: Role
    const sessionId: string
    const remotePeer: string
    var active: Option<string>
    var activeCreatedAt: Option<real>
    var pending: Option<Offer>
    var timer: bool
    var buffer: seq<Entry>
    var closed: bool

    function State(): Session
      reads this
    {
      Session(role, sessionId, remotePeer, active, activeCreatedAt, pending, timer, buffer, closed)
    }

    ghost predicate Valid()
      reads this
    {
      Unique(buffer)
    }

    constructor (role: Role, sessionId: string, remotePeer: string, ownNegotiation: string)
      ensures Valid() && Initial(State())
      ensures State() == Session(role, sessionId, remotePeer, if role.Offerer? then Some(ownNegotiation) else None,
                                 None, None, false, [], false)
    {
      this.role, this.sessionId, this.remotePeer := role, sessionId, remotePeer;
      active := if role.Offerer? then Some(ownNegotiation) else None;
      activeCreatedAt, pending, timer, buffer, closed := None, None, false, [], false;
    }

    static method FindCandidate(cs: seq<Candidate>, c: Candidate) returns (found: bool)
      ensures found == Holds(cs, c)
    {
      for i := 0 to |cs|
        invariant forall j | 0 <= j < i :: !Same(cs[j], c)
      {
        if Same(cs[i], c) {
          return true;
        }
      }
      found := false;
    }

    method QueuePendingCandidate(id: string, c: Candidate)
      requires Valid()
      modifies `buffer
      ensures Valid() && buffer == Queue(old(buffer), id, c)
    {
      QueueUnique(buffer, id, c);
      OpenedIsBuffered(buffer, id);
      var i := Find(buffer, id);
      if i == |buffer| {
        if |buffer| >= MAX_PENDING_NEGOTIATIONS && buffer[0].id != "" {
          buffer := buffer[1..];
        }
        buffer := buffer + [Entry(id, [])];
        assert buffer == Opened(old(buffer), id);
        i := |buffer| - 1;
        assert Find(buffer, id) == i;
      }
      var found := FindCandidate(buffer[i].candidates, c);
      if |buffer[i].candidates| < MAX_PENDING_CANDIDATES && !found {
        buffer := buffer[i := Entry(id, buffer[i].candidates + [c])];
      }
    }

    method AcceptAnswererOffer(o: Offer)
      requires Valid()
      modifies `buffer, `active, `activeCreatedAt
      ensures Valid() && State() == Accept(old(State()), o)
    {
      if active != Some(o.id) {
        var entries, kept: seq<Entry> := buffer, [];
        for i := 0 to |entries|
          invariant kept == if Find(entries, o.id) < i then [entries[Find(entries, o.id)]] else []
        {
          if entries[i].id == o.id {
            FindAt(entries, i, o.id);
            kept := kept + [entries[i]];
          }
        }
        buffer := kept;
      }
      active := Some(o.id);
      activeCreatedAt := Some(o.createdAt);
    }

    method ScheduleAnswererOffer(o: Offer)
      modifies `pending, `timer
      ensures State() == Schedule(old(State()), o)
    {
      if pending.Some? && pending.value.createdAt > o.createdAt {
        return;
      }
      pending := Some(o);
      timer := true;
    }

    method HandleRemoteSignal(g: Signal, described: bool)
      requires Valid()
      modifies this
      ensures Valid() && State() == Step(old(State()), Receive(g, described))
    {
      if closed || g.sessionId != sessionId || g.fromPeer != remotePeer {
        return;
      }
      if g.negotiationId == "" || g.createdAt.None? {
        return;
      }
      if g.kind.OfferKind? && g.description.Some? {
        if role.Offerer? {
          return;
        }
        var o := Offer(g.negotiationId, g.createdAt.value, g.description.value);
        if active.None? {
          ScheduleAnswererOffer(o);
        } else if g.negotiationId == active.value {
          AcceptAnswererOffer(o);
        } else if activeCreatedAt.Some? && o.createdAt > activeCreatedAt.value {
          AcceptAnswererOffer(o);
        }
      } else if g.kind.CandidateKind? && g.candidate.Some? {
        if active != Some(g.negotiationId) || !described {
          if role.Answerer? || active == Some(g.negotiationId) {
            QueuePendingCandidate(g.negotiationId, g.candidate.value);
          }
        }
      }
    }

    method SelectionTimer()
      requires Valid()
      modifies this
      ensures Valid() && State() == Step(old(State()), TimerFires)
    {
      if timer {
        timer := false;
        var offer := pending;
        pending := None;
        if offer.Some? && !closed && active.None? {
          AcceptAnswererOffer(offer.value);
        }
      }
    }

    method FlushPendingCandidates(id: string)
      requires Valid()
      modifies this
      ensures Valid() && State() == Step(old(State()), Flush(id))
    {
      WithoutUnique(buffer, id);
      var i := Find(buffer, id);
      if i < |buffer| {
        buffer := buffer[..i] + buffer[i + 1..];
      }
    }

    method CloseSession()
      requires Valid()
      modifies this
      ensures Valid() && State() == Step(old(State()), Close)
    {
      closed := true;
      timer := false;
      buffer := [];
    }
  }
}
