/**
 The live-key oracle: membership-gated, rate-limited answers to archival key requests
 (crates/content-keys/src/lib.rs, `LiveKeyOracle`).
 */
module LiveKey {
  import opened Prelude
  import opened KeyStates
  import opened Sums

  type Leaf = u32
  type Epoch = u64

  datatype Response = Response(state: KeyState, authorized: bool)

  datatype FailureMode = DecoyKey | UniformUnavailable

  datatype Proof = Proof(
    requesterLeaf: Leaf, epoch: Epoch, groupId: Text, groupCommitment: Digest, deviceKey: Digest, signature: Bytes)

  datatype Scope = Scope(authorLeaf: Option<Leaf>, networkHash: Option<Digest>)

  datatype RateKey = RateKey(
    requesterLeaf: Leaf, epoch: Epoch, authorLeaf: Option<Leaf>, networkHash: Option<Digest>)

  /** The oracle's fields; `max_requests` is a `usize` and at least 1. */
  datatype Oracle = Oracle(
    members: map<Epoch, set<Leaf>>,
    commitments: map<Epoch, Digest>,
    deviceKeys: map<(Epoch, Leaf), set<Digest>>,
    requests: map<RateKey, nat>,
    maxRequests: nat,
    decoyKey: Digest,
    mode: FailureMode)

  function RateKeyOf(proof: Proof, scope: Scope): RateKey {
    RateKey(proof.requesterLeaf, proof.epoch, scope.authorLeaf, scope.networkHash)
  }

  // ---- The oracle as a state machine ----

  /** `verify_signature(expected_commitment).is_ok()`, which `LiveKeyProofs.SignatureOk` defines. */
  type Verifier = (Proof, Digest) -> bool

  predicate Authorized(verify: Verifier, o: Oracle, p: Proof) {
    && p.epoch in o.members
    && p.requesterLeaf in o.members[p.epoch]
    && p.epoch in o.commitments
    && verify(p, o.commitments[p.epoch])
    && (p.epoch, p.requesterLeaf) in o.deviceKeys
    && p.deviceKey in o.deviceKeys[(p.epoch, p.requesterLeaf)]
  }

  function FailureResponse(o: Oracle, rateLimited: bool): Response {
    match o.mode
    case DecoyKey => Response(if rateLimited then RateLimited else Decoy(o.decoyKey), false)
    case UniformUnavailable => Response(Unavailable, false)
  }

  function Count(requests: map<RateKey, nat>, k: RateKey): nat {
    if k in requests then requests[k] else 0
  }

  /** `request_key_scoped`: an unauthorized proof changes nothing; an authorized one is counted, then answered. */
  function Request(verify: Verifier, o: Oracle, p: Proof, scope: Scope, key: Digest): (Oracle, Response) {
    if !Authorized(verify, o, p) then (o, FailureResponse(o, false))
    else
      var k := RateKeyOf(p, scope);
      var n := Min(Count(o.requests, k) + 1, USIZE_MAX);
      (o.(requests := o.requests[k := n]),
       if n > o.maxRequests then FailureResponse(o, true) else Response(Cached(key), true))
  }

  /** `authorize_member_device`. */
  function Grant(o: Oracle, epoch: Epoch, leaf: Leaf, device: Digest): Oracle {
    if epoch in o.members && leaf in o.members[epoch] then
      var known := if (epoch, leaf) in o.deviceKeys then o.deviceKeys[(epoch, leaf)] else {};
      o.(deviceKeys := o.deviceKeys[(epoch, leaf) := known + {device}])
    else o
  }

  datatype Event =
    | Ask(proof: Proof, scope: Scope, key: Digest)
    | Authorize(epoch: Epoch, leaf: Leaf, device: Digest)

  function Step(verify: Verifier, o: Oracle, e: Event): Oracle {
    match e
    case Ask(p, scope, key) => Request(verify, o, p, scope, key).0
    case Authorize(epoch, leaf, device) => Grant(o, epoch, leaf, device)
  }

  function After(verify: Verifier, o: Oracle, es: seq<Event>): Oracle {
    if es == [] then o else Step(verify, After(verify, o, es[..|es| - 1]), es[|es| - 1])
  }

  /** The answer to the request at position `i` of a run. */
  function Answer(verify: Verifier, o: Oracle, es: seq<Event>, i: nat): Response
    requires i < |es| && es[i].Ask?
  {
    Request(verify, After(verify, o, es[..i]), es[i].proof, es[i].scope, es[i].key).1
  }

  // ---- What a run depends on ----

  /** The oracle after the device authorizations of a run, as if no key had been requested. */
  function Granted(o: Oracle, es: seq<Event>): Oracle {
    if es == [] then o
    else
      var before, e := Granted(o, es[..|es| - 1]), es[|es| - 1];
      if e.Authorize? then Grant(before, e.epoch, e.leaf, e.device) else before
  }

  /** The event is a request whose proof is valid after the authorizations before it. */
  predicate ValidAsk(verify: Verifier, o: Oracle, before: seq<Event>, e: Event) {
    e.Ask? && Authorized(verify, Granted(o, before), e.proof)
  }

  /** The event is a request from this leaf, for this epoch and author, over this network. */
  predicate For(e: Event, k: RateKey) {
    && e.Ask? && e.proof.requesterLeaf == k.requesterLeaf && e.proof.epoch == k.epoch
    && e.scope.authorLeaf == k.authorLeaf && e.scope.networkHash == k.networkHash
  }

  predicate Counts(verify: Verifier, o: Oracle, before: seq<Event>, e: Event, k: RateKey) {
    ValidAsk(verify, o, before, e) && For(e, k)
  }

  /** The number of proof-valid requests for a rate key. */
  function Uses(verify: Verifier, o: Oracle, es: seq<Event>, k: RateKey): nat {
    if es == [] then 0
    else
      Uses(verify, o, es[..|es| - 1], k)
      + if Counts(verify, o, es[..|es| - 1], es[|es| - 1], k) then 1 else 0
  }

  /** Requests touch the counters only, and each counter is the saturated number of proof-valid requests. */
  lemma {:induction false} StateAfter(verify: Verifier, o: Oracle, es: seq<Event>, k: RateKey)
    requires o.requests == map[]
    ensures After(verify, o, es).(requests := map[]) == Granted(o, es)
    ensures Count(After(verify, o, es).requests, k) == Min(Uses(verify, o, es, k), USIZE_MAX)
  {
    if es == [] {
    } else {
      var init, e := es[..|es| - 1], es[|es| - 1];
      StateAfter(verify, o, init, k);
      if e.Ask? {
        assert Authorized(verify, After(verify, o, init), e.proof) == Authorized(verify, Granted(o, init), e.proof);
      }
    }
  }

  /** The two requests agree on requester leaf, epoch, author leaf and network. */
  predicate Alike(a: Event, b: Event) {
    && a.Ask? && b.Ask? && a.proof.requesterLeaf == b.proof.requesterLeaf && a.proof.epoch == b.proof.epoch
    && a.scope.authorLeaf == b.scope.authorLeaf && a.scope.networkHash == b.scope.networkHash
  }

  /** Two requests share a counter exactly when they agree on all four. */
  lemma SharedCounterIff(a: Event, b: Event)
    requires a.Ask? && b.Ask?
    ensures RateKeyOf(a.proof, a.scope) == RateKeyOf(b.proof, b.scope) <==> Alike(a, b)
  {
  }

  /** The number of proof-valid requests in a history that agree with a request on all four. */
  function UsesLike(verify: Verifier, o: Oracle, es: seq<Event>, e: Event): nat {
    if es == [] then 0
    else
      var init, last := es[..|es| - 1], es[|es| - 1];
      UsesLike(verify, o, init, e) + if ValidAsk(verify, o, init, last) && Alike(last, e) then 1 else 0
  }

  lemma {:induction false} UsesLikeIsUses(verify: Verifier, o: Oracle, es: seq<Event>, e: Event)
    requires e.Ask?
    ensures UsesLike(verify, o, es, e) == Uses(verify, o, es, RateKeyOf(e.proof, e.scope))
  {
    if es == [] {
    } else {
      UsesLikeIsUses(verify, o, es[..|es| - 1], e);
    }
  }

  /** The answer that the history alone prescribes. */
  function Prescribed(verify: Verifier, o: Oracle, before: seq<Event>, e: Event): Response
    requires e.Ask?
  {
    if !ValidAsk(verify, o, before, e) then FailureResponse(o, false)
    else if UsesLike(verify, o, before, e) >= o.maxRequests && o.maxRequests < USIZE_MAX
    then FailureResponse(o, true)
    else Response(Cached(e.key), true)
  }

  lemma {:induction false} GrantedKeepsShape(o: Oracle, es: seq<Event>)
    ensures Granted(o, es) == o.(deviceKeys := Granted(o, es).deviceKeys)
  {
    if es == [] {
    } else {
      GrantedKeepsShape(o, es[..|es| - 1]);
    }
  }

  /**
   The quota is exact. In every run the n-th proof-valid request of a leaf, for an epoch and author and over a
   network, gets the key exactly when n <= max_requests; every other request gets the failure response. At
   `usize::MAX` the saturated counter never exceeds the limit, so nothing is refused.
   */
  lemma ExactQuota(verify: Verifier, o: Oracle, es: seq<Event>, i: nat)
    requires o.requests == map[] && o.maxRequests <= USIZE_MAX
    requires i < |es| && es[i].Ask?
    ensures Answer(verify, o, es, i) == Prescribed(verify, o, es[..i], es[i])
  {
    var before, e := es[..i], es[i];
    StateAfter(verify, o, before, RateKeyOf(e.proof, e.scope));
    UsesLikeIsUses(verify, o, before, e);
    GrantedKeepsShape(o, before);
    var now := After(verify, o, before);
    assert Authorized(verify, now, e.proof) == Authorized(verify, Granted(o, before), e.proof);
  }

  predicate HasKey(o: Oracle, epoch: Epoch, leaf: Leaf, device: Digest) {
    (epoch, leaf) in o.deviceKeys && device in o.deviceKeys[(epoch, leaf)]
  }

  /** A device key is accepted exactly if it was at the start or has been authorized since for a member of the epoch. */
  lemma {:induction false} GrantedExact(o: Oracle, es: seq<Event>, epoch: Epoch, leaf: Leaf, device: Digest)
    ensures HasKey(Granted(o, es), epoch, leaf, device)
            <==> || HasKey(o, epoch, leaf, device)
                 || (epoch in o.members && leaf in o.members[epoch] && Authorize(epoch, leaf, device) in es)
  {
    if es == [] {
    } else {
      var init, e := es[..|es| - 1], es[|es| - 1];
      GrantedExact(o, init, epoch, leaf, device);
      GrantedKeepsShape(o, init);
      assert es == init + [e];
    }
  }

  /**
   A request counts exactly when it comes from a member of its epoch, its proof is signed over the epoch's commitment,
   and its device key was accepted at the start or has been authorized before it.
   */
  lemma ValidAskExact(verify: Verifier, o: Oracle, before: seq<Event>, e: Event)
    requires e.Ask?
    ensures var p := e.proof;
            ValidAsk(verify, o, before, e)
            <==> && p.epoch in o.members && p.requesterLeaf in o.members[p.epoch]
                 && p.epoch in o.commitments && verify(p, o.commitments[p.epoch])
                 && (HasKey(o, p.epoch, p.requesterLeaf, p.deviceKey)
                     || Authorize(p.epoch, p.requesterLeaf, p.deviceKey) in before)
  {
    GrantedKeepsShape(o, before);
    GrantedExact(o, before, e.proof.epoch, e.proof.requesterLeaf, e.proof.deviceKey);
  }

  /**
   What failures give away. Uniform failures all look alike, whatever went wrong and whatever happened before; with
   decoys, an over-limit request is told apart from an invalid one, and neither is ever answered with the real key.
   */
  lemma FailureShape(verify: Verifier, o: Oracle, es: seq<Event>, i: nat)
    requires o.requests == map[] && o.maxRequests <= USIZE_MAX
    requires i < |es| && es[i].Ask?
    ensures var r := Answer(verify, o, es, i);
            && (r.authorized <==> r.state.Cached?)
            && (!r.authorized && o.mode.UniformUnavailable? ==> r.state == Unavailable)
            && (!r.authorized && o.mode.DecoyKey? ==>
                  && (r.state == RateLimited <==> ValidAsk(verify, o, es[..i], es[i]))
                  && (r.state == Decoy(o.decoyKey) <==> !ValidAsk(verify, o, es[..i], es[i])))
  {
    ExactQuota(verify, o, es, i);
  }

  // ---- Comparing two runs ----

  /** The run without the requests for other rate keys. */
  function OnlyKey(es: seq<Event>, k: RateKey): seq<Event> {
    if es == [] then []
    else
      var kept, e := OnlyKey(es[..|es| - 1], k), es[|es| - 1];
      if e.Authorize? || For(e, k) then kept + [e] else kept
  }

  /** The run without the requests whose proof is invalid when they arrive. */
  function OnlyValid(verify: Verifier, o: Oracle, es: seq<Event>): seq<Event> {
    if es == [] then []
    else
      var kept, e := OnlyValid(verify, o, es[..|es| - 1]), es[|es| - 1];
      if e.Authorize? || ValidAsk(verify, o, es[..|es| - 1], e) then kept + [e] else kept
  }

  /** Event `i` is an authorization or a proof-valid request. */
  predicate Passes(verify: Verifier, o: Oracle, es: seq<Event>, i: nat)
    requires i < |es|
  {
    es[i].Authorize? || ValidAsk(verify, o, es[..i], es[i])
  }

  /** The answers a run gives to the requests for one rate key, in order. */
  function AnswersFor(verify: Verifier, o: Oracle, es: seq<Event>, k: RateKey): seq<Response> {
    if es == [] then []
    else
      var i := |es| - 1;
      var seen := AnswersFor(verify, o, es[..i], k);
      if For(es[i], k) then seen + [Answer(verify, o, es, i)] else seen
  }

  /** The answers a run gives to its proof-valid requests, in order. */
  function ValidAnswers(verify: Verifier, o: Oracle, es: seq<Event>): seq<Response> {
    if es == [] then []
    else
      var i := |es| - 1;
      var seen := ValidAnswers(verify, o, es[..i]);
      if ValidAsk(verify, o, es[..i], es[i]) then seen + [Answer(verify, o, es, i)] else seen
  }

  /** The two reduced runs hold the authorizations and the requests they are named after, and no others. */
  lemma {:induction false} ReducedRuns(verify: Verifier, o: Oracle, es: seq<Event>, k: RateKey)
    ensures forall e :: e in OnlyKey(es, k) <==> e in es && (e.Authorize? || For(e, k))
    ensures forall e | e in OnlyValid(verify, o, es) :: e in es
    ensures |OnlyValid(verify, o, es)| == |es| <==> forall i | 0 <= i < |es| :: Passes(verify, o, es, i)
    ensures |OnlyValid(verify, o, es)| <= |es|
  {
    if es == [] {
    } else {
      var init, e := es[..|es| - 1], es[|es| - 1];
      ReducedRuns(verify, o, init, k);
      assert es == init + [e];
      assert forall i | 0 <= i < |init| :: init[..i] == es[..i];
      assert Passes(verify, o, es, |init|) <==> e.Authorize? || ValidAsk(verify, o, init, e);
      assert forall i | 0 <= i < |init| :: Passes(verify, o, es, i) == Passes(verify, o, init, i);
    }
  }

  /** Every request of a rate key is among its observed answers, and every proof-valid one among the valid ones. */
  lemma {:induction false} AllObserved(verify: Verifier, o: Oracle, es: seq<Event>, k: RateKey, i: nat)
    requires i < |es| && es[i].Ask?
    ensures For(es[i], k) ==> Answer(verify, o, es, i) in AnswersFor(verify, o, es, k)
    ensures ValidAsk(verify, o, es[..i], es[i]) ==> Answer(verify, o, es, i) in ValidAnswers(verify, o, es)
  {
    if i == |es| - 1 {
    } else {
      var init := es[..|es| - 1];
      assert init[..i] == es[..i];
      AllObserved(verify, o, init, k, i);
    }
  }

  /** Removing requests for other keys changes neither the authorizations nor this key's use count. */
  lemma {:induction false} OnlyKeyHistory(verify: Verifier, o: Oracle, es: seq<Event>, k: RateKey)
    ensures Granted(o, OnlyKey(es, k)) == Granted(o, es)
    ensures Uses(verify, o, OnlyKey(es, k), k) == Uses(verify, o, es, k)
  {
    if es == [] {
    } else {
      var init, e := es[..|es| - 1], es[|es| - 1];
      OnlyKeyHistory(verify, o, init, k);
      var kept := OnlyKey(init, k);
      assert (kept + [e])[..|kept|] == kept;
    }
  }

  lemma {:induction false} OnlyValidHistory(verify: Verifier, o: Oracle, es: seq<Event>, k: RateKey)
    ensures Granted(o, OnlyValid(verify, o, es)) == Granted(o, es)
    ensures Uses(verify, o, OnlyValid(verify, o, es), k) == Uses(verify, o, es, k)
  {
    if es == [] {
    } else {
      var init, e := es[..|es| - 1], es[|es| - 1];
      OnlyValidHistory(verify, o, init, k);
      var kept := OnlyValid(verify, o, init);
      assert (kept + [e])[..|kept|] == kept;
    }
  }

  /** Two histories with the same authorizations and the same use count prescribe the same answer. */
  lemma {:induction false} SameHistorySameAnswer(verify: Verifier, o: Oracle,
                                                 before: seq<Event>, before': seq<Event>, e: Event)
    requires o.requests == map[] && o.maxRequests <= USIZE_MAX && e.Ask?
    requires Granted(o, before) == Granted(o, before')
    requires UsesLike(verify, o, before, e) == UsesLike(verify, o, before', e)
    ensures Answer(verify, o, before + [e], |before|) == Answer(verify, o, before' + [e], |before'|)
  {
    assert (before + [e])[..|before|] == before && (before' + [e])[..|before'|] == before';
    ExactQuota(verify, o, before + [e], |before|);
    ExactQuota(verify, o, before' + [e], |before'|);
  }

  /** Deleting every request for other rate keys changes no answer for this one. */
  lemma {:induction false} OtherKeysInvisible(verify: Verifier, o: Oracle, es: seq<Event>, k: RateKey)
    requires o.requests == map[] && o.maxRequests <= USIZE_MAX
    ensures AnswersFor(verify, o, es, k) == AnswersFor(verify, o, OnlyKey(es, k), k)
  {
    if es == [] {
    } else {
      var init, e := es[..|es| - 1], es[|es| - 1];
      OtherKeysInvisible(verify, o, init, k);
      var kept := OnlyKey(init, k);
      assert es == init + [e];
      assert (kept + [e])[..|kept|] == kept;
      if For(e, k) {
        OnlyKeyHistory(verify, o, init, k);
        UsesLikeIsUses(verify, o, init, e);
        UsesLikeIsUses(verify, o, kept, e);
        SameHistorySameAnswer(verify, o, init, kept, e);
      }
    }
  }

  /**
   Non-interference: what requesters of one rate key observe is a function of the device authorizations and of
   their own requests. Runs that agree on those give the same answers, whatever everybody else asks.
   */
  lemma NonInterference(verify: Verifier, o: Oracle, es: seq<Event>, es': seq<Event>, k: RateKey)
    requires o.requests == map[] && o.maxRequests <= USIZE_MAX
    requires OnlyKey(es, k) == OnlyKey(es', k)
    ensures AnswersFor(verify, o, es, k) == AnswersFor(verify, o, es', k)
  {
    OtherKeysInvisible(verify, o, es, k);
    OtherKeysInvisible(verify, o, es', k);
  }

  /** Probes are invisible: deleting every request with an invalid proof changes no remaining answer. */
  lemma {:induction false} ProbesInvisible(verify: Verifier, o: Oracle, es: seq<Event>)
    requires o.requests == map[] && o.maxRequests <= USIZE_MAX
    ensures ValidAnswers(verify, o, es) == ValidAnswers(verify, o, OnlyValid(verify, o, es))
  {
    if es == [] {
    } else {
      var init, e := es[..|es| - 1], es[|es| - 1];
      ProbesInvisible(verify, o, init);
      var kept := OnlyValid(verify, o, init);
      assert es == init + [e];
      assert (kept + [e])[..|kept|] == kept;
      if e.Ask? {
        OnlyValidHistory(verify, o, init, RateKeyOf(e.proof, e.scope));
        UsesLikeIsUses(verify, o, init, e);
        UsesLikeIsUses(verify, o, kept, e);
        SameHistorySameAnswer(verify, o, init, kept, e);
      }
    }
  }

  // ---- The total over all rate keys ----

  /** The number of requests a run answers with the key. */
  function Served(verify: Verifier, o: Oracle, es: seq<Event>): nat {
    if es == [] then 0
    else
      var i := |es| - 1;
      Served(verify, o, es[..i]) + if es[i].Ask? && Answer(verify, o, es, i).authorized then 1 else 0
  }

  /** The rate keys of the proof-valid requests of a run. */
  function KeysUsed(verify: Verifier, o: Oracle, es: seq<Event>): set<RateKey> {
    if es == [] then {}
    else
      var i := |es| - 1;
      var used := KeysUsed(verify, o, es[..i]);
      if ValidAsk(verify, o, es[..i], es[i]) then used + {RateKeyOf(es[i].proof, es[i].scope)} else used
  }

  function Capped(o: Oracle, uses: nat): nat {
    if o.maxRequests < USIZE_MAX then Min(uses, o.maxRequests) else uses
  }

  /** What each rate key has been served. */
  function CappedUses(verify: Verifier, o: Oracle, es: seq<Event>): RateKey -> nat {
    k => Capped(o, Uses(verify, o, es, k))
  }

  lemma {:induction false} UnusedKey(verify: Verifier, o: Oracle, es: seq<Event>, k: RateKey)
    requires k !in KeysUsed(verify, o, es)
    ensures Uses(verify, o, es, k) == 0
  {
    if es == [] {
    } else {
      UnusedKey(verify, o, es[..|es| - 1], k);
    }
  }

  lemma {:induction false} UsesOneMore(verify: Verifier, o: Oracle, init: seq<Event>, e: Event, k: RateKey)
    requires ValidAsk(verify, o, init, e)
    ensures Uses(verify, o, init + [e], k)
            == Uses(verify, o, init, k) + if k == RateKeyOf(e.proof, e.scope) then 1 else 0
  {
    assert (init + [e])[..|init|] == init;
  }

  /** A valid request adds to the total what it adds to its own rate key. */
  lemma {:induction false} ServedStep(verify: Verifier, o: Oracle, init: seq<Event>, e: Event, used: set<RateKey>)
    requires ValidAsk(verify, o, init, e) && used == KeysUsed(verify, o, init)
    ensures var k := RateKeyOf(e.proof, e.scope);
            Total(used + {k}, CappedUses(verify, o, init + [e]))
            == Total(used, CappedUses(verify, o, init))
               + Capped(o, Uses(verify, o, init, k) + 1) - Capped(o, Uses(verify, o, init, k))
  {
    var k := RateKeyOf(e.proof, e.scope);
    var f, g := CappedUses(verify, o, init), CappedUses(verify, o, init + [e]);
    forall r | r in used && r != k ensures f(r) == g(r) {
      UsesOneMore(verify, o, init, e, r);
    }
    UsesOneMore(verify, o, init, e, k);
    if k !in used {
      UnusedKey(verify, o, init, k);
    }
    TotalReplace(used, f, g, k);
  }

  /** One more event hands out a key exactly when it raises its rate key's capped use count. */
  lemma ServedOneMore(verify: Verifier, o: Oracle, init: seq<Event>, e: Event)
    requires o.requests == map[] && o.maxRequests <= USIZE_MAX
    ensures Served(verify, o, init + [e])
            == Served(verify, o, init)
               + if ValidAsk(verify, o, init, e) then
                   var uses := Uses(verify, o, init, RateKeyOf(e.proof, e.scope));
                   Capped(o, uses + 1) - Capped(o, uses)
                 else 0
  {
    var es := init + [e];
    assert es[..|init|] == init && es[|init|] == e;
    if e.Ask? {
      ExactQuota(verify, o, es, |init|);
      UsesLikeIsUses(verify, o, init, e);
    }
  }

  /**
   Conservation: the keys handed out over a whole run are exactly, for each rate key used, its proof-valid
   requests up to the limit, and so never more than the limit times the number of rate keys.
   */
  lemma {:induction false} ServedTotal(verify: Verifier, o: Oracle, es: seq<Event>)
    requires o.requests == map[] && o.maxRequests <= USIZE_MAX
    ensures Served(verify, o, es) == Total(KeysUsed(verify, o, es), CappedUses(verify, o, es))
  {
    if es == [] {
    } else {
      var init, e := es[..|es| - 1], es[|es| - 1];
      assert es == init + [e];
      ServedTotal(verify, o, init);
      ServedOneMore(verify, o, init, e);
      if ValidAsk(verify, o, init, e) {
        ServedStep(verify, o, init, e, KeysUsed(verify, o, init));
      } else {
        TotalSame(KeysUsed(verify, o, es), CappedUses(verify, o, es), CappedUses(verify, o, init));
      }
    }
  }

  lemma ServedBound(verify: Verifier, o: Oracle, es: seq<Event>)
    requires o.requests == map[] && o.maxRequests < USIZE_MAX
    ensures Served(verify, o, es) <= o.maxRequests * |KeysUsed(verify, o, es)|
  {
    ServedTotal(verify, o, es);
    TotalBound(KeysUsed(verify, o, es), CappedUses(verify, o, es), o.maxRequests);
  }

  // ---- The oracle object ----

  class LiveKeyOracle {
    const verify: Verifier
    var members: map<Epoch, set<Leaf>>
    var commitments: map<Epoch, Digest>
    var deviceKeys: map<(Epoch, Leaf), set<Digest>>
    var requests: map<RateKey, nat>
    var maxRequests: nat
    var decoyKey: Digest
    var mode: FailureMode

    function State(): Oracle
      reads this
    {
      Oracle(members, commitments, deviceKeys, requests, maxRequests, decoyKey, mode)
    }

    constructor (verify: Verifier, o: Oracle)
      ensures this.verify == verify && State() == o
    {
      this.verify := verify;
      members, commitments, deviceKeys, requests := o.members, o.commitments, o.deviceKeys, o.requests;
      maxRequests, decoyKey, mode := o.maxRequests, o.decoyKey, o.mode;
    }

    method AuthorizeMemberDevice(epoch: Epoch, leaf: Leaf, device: Digest) returns (member: bool)
      modifies this
      ensures State() == Grant(old(State()), epoch, leaf, device)
      ensures member == (epoch in old(members) && leaf in old(members)[epoch])
    {
      member := epoch in members && leaf in members[epoch];
      if member {
        if (epoch, leaf) !in deviceKeys {
          deviceKeys := deviceKeys[(epoch, leaf) := {}];
        }
        deviceKeys := deviceKeys[(epoch, leaf) := deviceKeys[(epoch, leaf)] + {device}];
      }
    }

    method RequestKeyScoped(proof: Proof, scope: Scope, key: Digest) returns (response: Response)
      modifies this
      ensures (State(), response) == Request(verify, old(State()), proof, scope, key)
    {
      if !Authorized(verify, State(), proof) {
        return FailureResponse(State(), false);
      }
      var rateKey := RateKeyOf(proof, scope);
      if rateKey !in requests {
        requests := requests[rateKey := 0];
      }
      var counter := Min(requests[rateKey] + 1, USIZE_MAX);
      requests := requests[rateKey := counter];
      assert requests == old(requests)[rateKey := counter];
      if requests[rateKey] > maxRequests {
        return FailureResponse(State(), true);
      }
      response := Response(Cached(key), true);
    }
  }
}
