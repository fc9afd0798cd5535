/**
 Invites: the one-record `Invite` and the signed `InviteStore` (crates/admission/src/lib.rs). Times are
 nanoseconds; signatures cover the expiry in milliseconds.
 */
module Invites {
  import opened Prelude
  import opened Signatures
  import opened InviteFormat
  import opened InviteMetadata

  // ---- The one-record invite ----

  datatype Invite = Invite(
    id: Bytes, roomSecretHash: Bytes, expiresAt: int, maxUses: u32, uses: u32, revoked: bool)

  function ConsumeResult(i: Invite, now: int): Outcome {
    if i.revoked then Some(Revoked)
    else if now > i.expiresAt then Some(Expired)
    else if i.uses >= i.maxUses then Some(Exhausted)
    else None
  }

  /** An invite can be used exactly while it is not revoked, expired or used up, with the error of the first. */
  lemma ConsumeExact(i: Invite, now: int)
    ensures ConsumeResult(i, now) == None <==> !i.revoked && now <= i.expiresAt && i.uses < i.maxUses
    ensures ConsumeResult(i, now) == Some(Revoked) <==> i.revoked
    ensures ConsumeResult(i, now) == Some(Expired) <==> !i.revoked && i.expiresAt < now
    ensures ConsumeResult(i, now) == Some(Exhausted) <==> !i.revoked && now <= i.expiresAt && i.maxUses <= i.uses
  {
  }

  /** `Invite::consume`: an error leaves the invite as it is. */
  function Consumed(i: Invite, now: int): Invite {
    if ConsumeResult(i, now).None? then i.(uses := Min(i.uses + 1, U32_MAX)) else i
  }

  // ---- Stored invites ----

  datatype StoredInvite = StoredInvite(
    schemaVersion: nat, inviteId: Bytes, roomSecretCommitment: Bytes, issuerKey: Bytes, issuerSignature: Bytes,
    signaling: Signaling, bootstrap: Option<Bootstrap>, admission: Option<AdmissionSnapshot>,
    revocation: RevocationPolicy, password: Option<PasswordPolicy>, expiresAt: int, maxUses: u32,
    consumedUses: u32, revocationEvent: Option<Bytes>)

  /** `timestamp_millis` rounds towards the past. */
  function Millis(t: int): int {
    t / 1_000_000
  }

  function DescriptorOf(s: StoredInvite): Descriptor {
    Descriptor(s.inviteId, s.roomSecretCommitment, s.issuerKey, s.signaling, s.bootstrap, s.admission, s.revocation,
               s.password, Millis(s.expiresAt), s.maxUses)
  }

  /** Every signed field by name: all but the use count, the revocation and the signature itself. */
  function SignedPart(s: StoredInvite): Descriptor {
    Descriptor(
      inviteId := s.inviteId, roomSecretCommitment := s.roomSecretCommitment, issuerKey := s.issuerKey,
      signaling := s.signaling, bootstrap := s.bootstrap, admission := s.admission, revocation := s.revocation,
      password := s.password, expiresMs := s.expiresAt / 1_000_000, maxUses := s.maxUses)
  }

  function Project(s: StoredInvite): Invite {
    Invite(s.inviteId, s.roomSecretCommitment, s.expiresAt, s.maxUses, s.consumedUses, s.revocationEvent.Some?)
  }

  /**
   What the store relies on: the signature scheme, the hash, the encoding of descriptors, the metadata validators
   (each returns its error, if any) and the default metadata of `issue_invite`.
   */
  datatype Env = Env(
    scheme: Scheme,
    hash: Bytes -> Digest,
    encode: Descriptor -> Bytes,
    checkSignaling: Signaling -> Outcome,
    checkBootstrap: Bootstrap -> Outcome,
    checkAdmission: AdmissionSnapshot -> Outcome,
    checkRevocation: RevocationPolicy -> Outcome,
    checkPassword: PasswordPolicy -> Outcome,
    defaultSignaling: Signaling,
    defaultRevocation: RevocationPolicy)
  {
    /** Honest signatures verify, and the defaults pass their own validators. */
    ghost predicate Sound() {
      scheme.Complete() && checkSignaling(defaultSignaling).None? && checkRevocation(defaultRevocation).None?
    }

    /**
     Honest signatures verify, and the signaling and revocation metadata have the validators and defaults of the
     crate. The validators of optional metadata may be any functions.
     */
    ghost predicate Deployed() {
      && scheme.Complete()
      && checkSignaling == CheckSignaling && checkRevocation == CheckRevocation
      && defaultSignaling == DefaultSignaling(hash) && defaultRevocation == DefaultRevocation(hash)
    }
  }

  lemma DeployedIsSound(env: Env)
    requires env.Deployed()
    ensures env.Sound()
  {
    DefaultsValid(env.hash);
  }

  function CheckOptional<T>(value: Option<T>, check: T -> Outcome): Outcome {
    if value.None? then None else check(value.value)
  }

  /** `verify_issuer_signature`, with the order of its checks. */
  function VerifyIssuerSignature(env: Env, s: StoredInvite): Outcome {
    if env.checkSignaling(s.signaling).Some? then env.checkSignaling(s.signaling)
    else if CheckOptional(s.bootstrap, env.checkBootstrap).Some? then CheckOptional(s.bootstrap, env.checkBootstrap)
    else if s.schemaVersion != 1 then Some(InvalidEndpointPolicy)
    else if CheckOptional(s.admission, env.checkAdmission).Some? then CheckOptional(s.admission, env.checkAdmission)
    else if env.checkRevocation(s.revocation).Some? then env.checkRevocation(s.revocation)
    else if CheckOptional(s.password, env.checkPassword).Some? then CheckOptional(s.password, env.checkPassword)
    else if !env.scheme.Verifies(s.issuerKey, env.encode(DescriptorOf(s)), s.issuerSignature)
    then Some(InvalidIssuerSignature)
    else None
  }

  /** The four ways to issue an invite, each with the metadata it takes. */
  datatype Request =
    | Plain
    | WithSignaling(s: Signaling)
    | WithBootstrap(s: Signaling, b: Bootstrap)
    | CanonicalGroup(s: Signaling, b: Bootstrap, a: AdmissionSnapshot, r: RevocationPolicy, p: Option<PasswordPolicy>)

  datatype Issuance = Issuance(
    request: Request, inviteId: Bytes, roomSecretCommitment: Digest, expiresAt: int, maxUses: u32, issuerSecret: Bytes)

  function CheckRequest(env: Env, q: Request): Outcome {
    match q
    case Plain => None
    case WithSignaling(s) => env.checkSignaling(s)
    case WithBootstrap(s, b) =>
      if env.checkSignaling(s).Some? then env.checkSignaling(s) else env.checkBootstrap(b)
    case CanonicalGroup(s, b, a, r, p) =>
      if env.checkSignaling(s).Some? then env.checkSignaling(s)
      else if env.checkBootstrap(b).Some? then env.checkBootstrap(b)
      else if env.checkAdmission(a).Some? then env.checkAdmission(a)
      else if env.checkRevocation(r).Some? then env.checkRevocation(r)
      else CheckOptional(p, env.checkPassword)
  }

  /** `StoredInvite::sign` on the request's metadata. */
  function Sign(env: Env, i: Issuance): StoredInvite {
    var (signaling, bootstrap, admission, revocation, password) :=
      match i.request
      case Plain => (env.defaultSignaling, None, None, env.defaultRevocation, None)
      case WithSignaling(s) => (s, None, None, env.defaultRevocation, None)
      case WithBootstrap(s, b) => (s, Some(b), None, env.defaultRevocation, None)
      case CanonicalGroup(s, b, a, r, p) => (s, Some(b), Some(a), r, p);
    var draft := StoredInvite(1, i.inviteId, i.roomSecretCommitment, env.scheme.publicKey(i.issuerSecret), [],
                              signaling, bootstrap, admission, revocation, password, i.expiresAt,
                              if i.maxUses == 0 then 1 else i.maxUses, 0, None);
    draft.(issuerSignature := env.scheme.sign(i.issuerSecret, env.encode(DescriptorOf(draft))))
  }

  /** The metadata an invite is signed with: the request's own, and the defaults where it names none. */
  predicate Carries(env: Env, s: StoredInvite, q: Request) {
    match q
    case Plain =>
      && s.signaling == env.defaultSignaling && s.bootstrap.None? && s.admission.None?
      && s.revocation == env.defaultRevocation && s.password.None?
    case WithSignaling(signaling) =>
      && s.signaling == signaling && s.bootstrap.None? && s.admission.None?
      && s.revocation == env.defaultRevocation && s.password.None?
    case WithBootstrap(signaling, bootstrap) =>
      && s.signaling == signaling && s.bootstrap == Some(bootstrap) && s.admission.None?
      && s.revocation == env.defaultRevocation && s.password.None?
    case CanonicalGroup(signaling, bootstrap, admission, revocation, password) =>
      && s.signaling == signaling && s.bootstrap == Some(bootstrap) && s.admission == Some(admission)
      && s.revocation == revocation && s.password == password
  }

  /** A new invite holds what was asked for, field by field, unused and not revoked, signed over all of it. */
  lemma SignedAsRequested(env: Env, i: Issuance)
    ensures var s := Sign(env, i);
            && s.schemaVersion == 1 && s.inviteId == i.inviteId && s.roomSecretCommitment == i.roomSecretCommitment
            && s.expiresAt == i.expiresAt && s.maxUses == Max(1, i.maxUses)
            && s.consumedUses == 0 && s.revocationEvent.None?
            && Carries(env, s, i.request)
            && s.issuerKey == env.scheme.publicKey(i.issuerSecret)
            && s.issuerSignature == env.scheme.sign(i.issuerSecret, env.encode(SignedPart(s)))
  {
    var s := Sign(env, i);
    assert DescriptorOf(s) == DescriptorOf(s.(issuerSignature := []));
  }

  // ---- Who is let through ----

  /** The first error in a list of checks. */
  function FirstError(checks: seq<Outcome>): (r: Outcome)
    ensures r.None? <==> forall i | 0 <= i < |checks| :: checks[i].None?
    ensures r.Some? ==> exists i | 0 <= i < |checks| :: checks[i] == r && forall j | 0 <= j < i :: checks[j].None?
  {
    if checks == [] then None else if checks[0].Some? then checks[0] else FirstError(checks[1..])
  }

  /** The parts of a request, in the order in which they are validated. */
  function RequestChecks(env: Env, q: Request): seq<Outcome> {
    var none: Outcome := None;
    match q
    case Plain => []
    case WithSignaling(s) => [env.checkSignaling(s)]
    case WithBootstrap(s, b) => [env.checkSignaling(s), env.checkBootstrap(b)]
    case CanonicalGroup(s, b, a, r, p) =>
      [env.checkSignaling(s), env.checkBootstrap(b), env.checkAdmission(a), env.checkRevocation(r),
       if p.Some? then env.checkPassword(p.value) else none]
  }

  /** Issuance succeeds exactly when every part of the request passes its own validator, and fails with the first. */
  lemma IssuanceExact(env: Env, q: Request)
    ensures CheckRequest(env, q) == FirstError(RequestChecks(env, q))
  {
    var c := RequestChecks(env, q);
    if q.CanonicalGroup? {
      assert c[1..][0] == c[1] && c[1..][1..][0] == c[2] && c[1..][1..][1..][0] == c[3];
      assert c[1..][1..][1..][1..][0] == c[4] && c[1..][1..][1..][1..][1..] == [];
    }
  }

  /** What `verify_issuer_signature` checks, in order. */
  function VerificationChecks(env: Env, s: StoredInvite): seq<Outcome> {
    var none: Outcome := None;
    [env.checkSignaling(s.signaling),
     if s.bootstrap.Some? then env.checkBootstrap(s.bootstrap.value) else none,
     if s.schemaVersion == 1 then none else Some(InvalidEndpointPolicy),
     if s.admission.Some? then env.checkAdmission(s.admission.value) else none,
     env.checkRevocation(s.revocation),
     if s.password.Some? then env.checkPassword(s.password.value) else none,
     if env.scheme.Verifies(s.issuerKey, env.encode(SignedPart(s)), s.issuerSignature) then none
     else Some(InvalidIssuerSignature)]
  }

  /** Verification passes exactly the records all of whose parts are valid and whose signature covers them. */
  lemma VerificationExact(env: Env, s: StoredInvite)
    ensures VerifyIssuerSignature(env, s) == FirstError(VerificationChecks(env, s))
  {
    var c := VerificationChecks(env, s);
    assert c[1..][0] == c[1] && c[1..][1..][0] == c[2] && c[1..][1..][1..][0] == c[3];
    assert c[1..][1..][1..][1..][0] == c[4] && c[1..][1..][1..][1..][1..][0] == c[5];
    assert c[1..][1..][1..][1..][1..][1..][0] == c[6] && c[1..][1..][1..][1..][1..][1..][1..] == [];
  }

  // ---- The store as a state machine ----

  type Store = map<Bytes, StoredInvite>

  datatype Event =
    | Issue(issuance: Issuance)
    | Revoke(id: Bytes, governanceEvent: Bytes)
    | Consume(id: Bytes, now: int)

  function StoredConsumeResult(env: Env, s: StoredInvite, now: int): Outcome {
    if VerifyIssuerSignature(env, s).Some? then VerifyIssuerSignature(env, s)
    else if s.revocationEvent.Some? then Some(Revoked)
    else if now > s.expiresAt then Some(Expired)
    else if s.consumedUses >= s.maxUses then Some(Exhausted)
    else None
  }

  function ResultOf(env: Env, store: Store, e: Event): Outcome {
    match e
    case Issue(i) => CheckRequest(env, i.request)
    case Revoke(id, _) => if id in store then None else Some(NotFound)
    case Consume(id, now) => if id in store then StoredConsumeResult(env, store[id], now) else Some(NotFound)
  }

  /** An operation that fails changes nothing. */
  function Step(env: Env, store: Store, e: Event): Store {
    if ResultOf(env, store, e).Some? then store
    else
      match e
      case Issue(i) => store[i.inviteId := Sign(env, i)]
      case Revoke(id, ev) => store[id := store[id].(revocationEvent := Some(ev))]
      case Consume(id, _) => store[id := store[id].(consumedUses := Min(store[id].consumedUses + 1, U32_MAX))]
  }

  function After(env: Env, es: seq<Event>): Store {
    if es == [] then map[] else Step(env, After(env, es[..|es| - 1]), es[|es| - 1])
  }

  function Lookup(store: Store, id: Bytes): Option<StoredInvite> {
    if id in store then Some(store[id]) else None
  }

  /**
   In every store, reachable or not, consuming a record that does not verify fails with the reason and changes nothing,
   and any other record is consumed as the one-record invite it projects to.
   */
  lemma ConsumeChecksRecord(env: Env, store: Store, id: Bytes, now: int)
    requires id in store
    ensures var bad := FirstError(VerificationChecks(env, store[id]));
            ResultOf(env, store, Consume(id, now)) == if bad.Some? then bad else ConsumeResult(Project(store[id]), now)
    ensures ResultOf(env, store, Consume(id, now)).Some? ==> Step(env, store, Consume(id, now)) == store
  {
    VerificationExact(env, store[id]);
  }

  // ---- The store refines one-record invites ----

  lemma FreshWhenSound(env: Env, i: Issuance, uses: u32, revoked: Option<Bytes>)
    requires env.Sound() && CheckRequest(env, i.request).None?
    ensures VerifyIssuerSignature(env, Sign(env, i).(consumedUses := uses, revocationEvent := revoked)).None?
  {
    var s := Sign(env, i);
    assert DescriptorOf(s) == DescriptorOf(s.(issuerSignature := []));
    assert DescriptorOf(s) == DescriptorOf(s.(consumedUses := uses, revocationEvent := revoked));
  }

  /** The event issues an invite under this id. */
  predicate Issues(env: Env, e: Event, id: Bytes) {
    e.Issue? && e.issuance.inviteId == id && CheckRequest(env, e.issuance.request).None?
  }

  /** The invite last issued under an id. */
  function LastIssued(env: Env, es: seq<Event>, id: Bytes): Option<StoredInvite> {
    if es == [] then None
    else if Issues(env, es[|es| - 1], id) then Some(Sign(env, es[|es| - 1].issuance))
    else LastIssued(env, es[..|es| - 1], id)
  }

  /** The one-record invite that an id's own events produce. */
  function Model(env: Env, es: seq<Event>, id: Bytes): Option<Invite> {
    if es == [] then None
    else
      var before, e := Model(env, es[..|es| - 1], id), es[|es| - 1];
      if Issues(env, e, id) then
        var i := e.issuance;
        Some(Invite(id, i.roomSecretCommitment, i.expiresAt, Max(1, i.maxUses), 0, false))
      else if before.None? then None
      else if e.Revoke? && e.id == id then Some(before.value.(revoked := true))
      else if e.Consume? && e.id == id then Some(Consumed(before.value, e.now))
      else before
  }

  lemma SameVerification(env: Env, s: StoredInvite, s': StoredInvite)
    requires s'.(consumedUses := 0, revocationEvent := None) == s.(consumedUses := 0, revocationEvent := None)
    ensures VerifyIssuerSignature(env, s') == VerifyIssuerSignature(env, s)
  {
    assert DescriptorOf(s) == DescriptorOf(s');
  }

  ghost predicate RefinedAt(env: Env, es: seq<Event>, id: Bytes) {
    match Lookup(After(env, es), id)
    case None => LastIssued(env, es, id).None? && Model(env, es, id).None?
    case Some(s) =>
      && VerifyIssuerSignature(env, s).None?
      && Model(env, es, id) == Some(Invite(id, s.roomSecretCommitment, s.expiresAt, s.maxUses, s.consumedUses,
                                           s.revocationEvent.Some?))
      && LastIssued(env, es, id) == Some(s.(consumedUses := 0, revocationEvent := None))
  }

  lemma {:induction false} RefinesWhenSound(env: Env, es: seq<Event>, id: Bytes)
    requires env.Sound()
    ensures RefinedAt(env, es, id)
  {
    if es == [] {
    } else {
      var init, e := es[..|es| - 1], es[|es| - 1];
      RefinesWhenSound(env, init, id);
      var before := Lookup(After(env, init), id);
      if Issues(env, e, id) {
        FreshWhenSound(env, e.issuance, 0, None);
      } else if before.Some? {
        var s := Lookup(After(env, es), id).value;
        assert DescriptorOf(s) == DescriptorOf(before.value);
        SameVerification(env, before.value, s);
      }
    }
  }

  lemma ConsumeWhenSound(env: Env, es: seq<Event>, id: Bytes, now: int)
    requires env.Sound()
    ensures ResultOf(env, After(env, es), Consume(id, now))
            == match Model(env, es, id)
               case None => Some(NotFound)
               case Some(i) => ConsumeResult(i, now)
  {
    RefinesWhenSound(env, es, id);
  }

  /** Issuance validates what verification checks, and verification reads nothing that later operations change. */
  lemma FreshInviteVerifies(env: Env, i: Issuance, uses: u32, revoked: Option<Bytes>)
    requires env.Deployed() && CheckRequest(env, i.request).None?
    ensures VerifyIssuerSignature(env, Sign(env, i).(consumedUses := uses, revocationEvent := revoked)).None?
  {
    DeployedIsSound(env);
    FreshWhenSound(env, i, uses, revoked);
  }

  /**
   In every reachable store, an id holds the invite last issued under it with only its use count and revocation
   changed, its signature check passes, and its projection is the one-record invite that saw the same events.
   */
  lemma StoreRefinesInvites(env: Env, es: seq<Event>, id: Bytes)
    requires env.Deployed()
    ensures RefinedAt(env, es, id)
  {
    DeployedIsSound(env);
    RefinesWhenSound(env, es, id);
  }

  /** Every consume returns what the one-record invite would return: the signature check never adds an error. */
  lemma ConsumeAgrees(env: Env, es: seq<Event>, id: Bytes, now: int)
    requires env.Deployed()
    ensures ResultOf(env, After(env, es), Consume(id, now))
            == match Model(env, es, id)
               case None => Some(NotFound)
               case Some(i) => ConsumeResult(i, now)
  {
    DeployedIsSound(env);
    ConsumeWhenSound(env, es, id, now);
  }

  // ---- Counting ----

  /** How many consumes of an id succeed in a run. */
  function Successes(env: Env, es: seq<Event>, id: Bytes): nat {
    if es == [] then 0
    else
      var init, e := es[..|es| - 1], es[|es| - 1];
      Successes(env, init, id)
      + if e.Consume? && e.id == id && ResultOf(env, After(env, init), e).None? then 1 else 0
  }

  /** No id is issued twice, as ids are 32 random bytes. */
  predicate FreshIds(es: seq<Event>) {
    forall i, j | 0 <= i < j < |es| && es[i].Issue? && es[j].Issue? ::
      es[i].issuance.inviteId != es[j].issuance.inviteId
  }

  lemma {:induction false} NotIssuedNotUsed(env: Env, es: seq<Event>, id: Bytes)
    requires forall e | e in es && e.Issue? :: e.issuance.inviteId != id
    ensures id !in After(env, es) && Successes(env, es, id) == 0
  {
    if es == [] {
    } else {
      assert es[|es| - 1] in es;
      NotIssuedNotUsed(env, es[..|es| - 1], id);
    }
  }

  /** With fresh ids, an id that the last event issues is new. */
  lemma NotIssuedBefore(env: Env, es: seq<Event>)
    requires FreshIds(es) && es != [] && es[|es| - 1].Issue?
    ensures var id := es[|es| - 1].issuance.inviteId;
            id !in After(env, es[..|es| - 1]) && Successes(env, es[..|es| - 1], id) == 0
  {
    var init, id := es[..|es| - 1], es[|es| - 1].issuance.inviteId;
    forall x | x in init && x.Issue? ensures x.issuance.inviteId != id {
      var i :| 0 <= i < |init| && init[i] == x;
      assert es[i] == x;
    }
    NotIssuedNotUsed(env, init, id);
  }

  /** Whether a run revokes an id after position `k`. */
  predicate RevokedSince(es: seq<Event>, k: nat, id: Bytes) {
    exists j | k < j < |es| :: es[j].Revoke? && es[j].id == id
  }

  lemma RevokedOneMore(es: seq<Event>, k: nat, id: Bytes)
    requires k < |es| - 1
    ensures RevokedSince(es, k, id)
            <==> RevokedSince(es[..|es| - 1], k, id) || (es[|es| - 1].Revoke? && es[|es| - 1].id == id)
  {
    var init := es[..|es| - 1];
    if RevokedSince(init, k, id) {
      var j :| k < j < |init| && init[j].Revoke? && init[j].id == id;
      assert es[j] == init[j];
    }
    if RevokedSince(es, k, id) {
      var j :| k < j < |es| && es[j].Revoke? && es[j].id == id;
      assert j < |init| ==> init[j] == es[j];
    }
  }

  /** With fresh ids, the stored use count is the number of successful consumes and never exceeds the maximum. */
  lemma {:induction false} UsesConserved(env: Env, es: seq<Event>, id: Bytes)
    requires FreshIds(es)
    requires id in After(env, es)
    ensures var s := After(env, es)[id]; s.consumedUses == Successes(env, es, id) <= s.maxUses
  {
    var init, e := es[..|es| - 1], es[|es| - 1];
    if Issues(env, e, id) {
      NotIssuedBefore(env, es);
    } else {
      UsesConserved(env, init, id);
    }
  }

  /** After its only issuance an id holds what was asked for, with its successful consumes and its revocation. */
  lemma {:induction false} StoredExact(env: Env, es: seq<Event>, k: nat)
    requires FreshIds(es) && k < |es| && es[k].Issue? && CheckRequest(env, es[k].issuance.request).None?
    ensures var i := es[k].issuance;
            && i.inviteId in After(env, es)
            && var s := After(env, es)[i.inviteId];
               && s == Sign(env, i).(consumedUses := s.consumedUses, revocationEvent := s.revocationEvent)
               && s.consumedUses == Successes(env, es, i.inviteId)
               && (s.revocationEvent.Some? <==> RevokedSince(es, k, i.inviteId))
  {
    var init, e := es[..|es| - 1], es[|es| - 1];
    var id := es[k].issuance.inviteId;
    if k == |es| - 1 {
      NotIssuedBefore(env, es);
    } else {
      StoredExact(env, init, k);
      UsesConserved(env, es, id);
      RevokedOneMore(es, k, id);
    }
  }

  /**
   With fresh ids, an issued invite can be used exactly when it has not been revoked since, has not expired, and has
   been used fewer than max(1, `max_uses`) times.
   */
  lemma UsableIff(env: Env, es: seq<Event>, k: nat, now: int)
    requires env.Deployed() && FreshIds(es)
    requires k < |es| && es[k].Issue? && CheckRequest(env, es[k].issuance.request).None?
    ensures var i := es[k].issuance;
            ResultOf(env, After(env, es), Consume(i.inviteId, now)).None?
            <==> && !RevokedSince(es, k, i.inviteId) && now <= i.expiresAt
                 && Successes(env, es, i.inviteId) < Max(1, i.maxUses)
  {
    var id := es[k].issuance.inviteId;
    StoredExact(env, es, k);
    SignedAsRequested(env, es[k].issuance);
    StoreRefinesInvites(env, es, id);
    ConsumeAgrees(env, es, id, now);
    ConsumeExact(Project(After(env, es)[id]), now);
  }

  // ---- The objects ----

  class InviteRecord {
    const id: Bytes
    const roomSecretHash: Bytes
    const expiresAt: int
    const maxUses: u32
    var uses: u32
    var revoked: bool

    function State(): Invite
      reads this
    {
      Invite(id, roomSecretHash, expiresAt, maxUses, uses, revoked)
    }

    constructor (id: Bytes, roomSecretHash: Bytes, expiresAt: int, maxUses: u32)
      ensures State() == Invite(id, roomSecretHash, expiresAt, maxUses, 0, false)
    {
      this.id, this.roomSecretHash, this.expiresAt, this.maxUses := id, roomSecretHash, expiresAt, maxUses;
      uses, revoked := 0, false;
    }

    method Revoke()
      modifies `revoked
      ensures State() == old(State()).(revoked := true)
    {
      revoked := true;
    }

    method Consume(now: int) returns (r: Outcome)
      modifies `uses
      ensures State() == Consumed(old(State()), now) && r == ConsumeResult(old(State()), now)
    {
      if revoked {
        return Some(Revoked);
      }
      if now > expiresAt {
        return Some(Expired);
      }
      if uses >= maxUses {
        return Some(Exhausted);
      }
      uses := Min(uses + 1, U32_MAX);
      r := None;
    }
  }

  class InviteStore {
    const env: Env
    var invites: Store

    constructor (env: Env)
      ensures this.env == env && invites == map[]
    {
      this.env := env;
      invites := map[];
    }

    method IssueInvite(i: Issuance) returns (r: Result<StoredInvite, InviteError>)
      modifies this
      ensures invites == Step(env, old(invites), Issue(i))
      ensures r == match ResultOf(env, old(invites), Issue(i))
                   case None => Success(Sign(env, i))
                   case Some(error) => Failure(error)
    {
      var error := CheckRequest(env, i.request);
      if error.Some? {
        return Failure(error.value);
      }
      var invite := Sign(env, i);
      invites := invites[invite.inviteId := invite];
      r := Success(invite);
    }

    method RevokeInvite(id: Bytes, governanceEvent: Bytes) returns (r: Outcome)
      modifies this
      ensures invites == Step(env, old(invites), Revoke(id, governanceEvent))
      ensures r == ResultOf(env, old(invites), Revoke(id, governanceEvent))
    {
      if id !in invites {
        return Some(NotFound);
      }
      invites := invites[id := invites[id].(revocationEvent := Some(governanceEvent))];
      r := None;
    }

    method ConsumeInvite(id: Bytes, now: int) returns (r: Outcome)
      modifies this
      ensures invites == Step(env, old(invites), Consume(id, now))
      ensures r == ResultOf(env, old(invites), Consume(id, now))
    {
      if id !in invites {
        return Some(NotFound);
      }
      var invite := invites[id];
      var verified := VerifyIssuerSignature(env, invite);
      if verified.Some? {
        return verified;
      }
      if invite.revocationEvent.Some? {
        return Some(Revoked);
      }
      if now > invite.expiresAt {
        return Some(Expired);
      }
      if invite.consumedUses >= invite.maxUses {
        return Some(Exhausted);
      }
      invites := invites[id := invite.(consumedUses := Min(invite.consumedUses + 1, U32_MAX))];
      r := None;
    }
  }
}
