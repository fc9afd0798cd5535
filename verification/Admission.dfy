/**
 Final admission (crates/admission/src/lib.rs, `AdmissionController`, `AuthorizedWelcome`, `AuthorizedHelperProof`
 and `OnlineAdmissionHelper`): the Welcome check, then the password gate, then one use of the invite.
 */
module Admission {
  import opened Prelude
  import opened Signatures
  import opened SignedMessages
  import opened InviteMetadata
  import opened Invites

  datatype Welcome = Welcome(
    inviteId: Bytes, groupId: Bytes, payloadHash: Digest, expiresAt: int, issuerKey: Bytes, signature: Bytes)

  datatype HelperProof = HelperProof(
    helperId: Bytes, subject: Bytes, challengeId: Bytes, expiresAt: int, helperKey: Bytes, signature: Bytes)

  datatype Gate =
    | NoGate
    | OpaquePake(serverId: Bytes)
    | OnlineHelper(helperId: Bytes)
    | OfflineVerifier(verifierId: Bytes)

  /** Signatures, the Welcome payload hash and the two signed encodings. */
  datatype Crypto = Crypto(
    scheme: Scheme,
    payloadHash: Bytes -> Digest,
    welcomeBytes: WelcomeFields -> Bytes,
    helperBytes: HelperFields -> Bytes)

  function WelcomeFieldsOf(w: Welcome): WelcomeFields {
    WelcomeFields(w.inviteId, w.groupId, w.payloadHash, Millis(w.expiresAt), w.issuerKey)
  }

  function HelperFieldsOf(p: HelperProof): HelperFields {
    HelperFields(p.helperId, p.subject, p.challengeId, Millis(p.expiresAt), p.helperKey)
  }

  /** `AuthorizedWelcome::verify`. */
  function VerifyWelcome(cr: Crypto, w: Welcome, expectedInviteId: Bytes, payload: Bytes, now: int): Outcome {
    if w.inviteId != expectedInviteId then Some(WelcomeInviteMismatch)
    else if now > w.expiresAt then Some(WelcomeExpired)
    else if w.payloadHash != cr.payloadHash(payload) then Some(InvalidWelcomeAuthorization)
    else if !cr.scheme.Verifies(w.issuerKey, cr.welcomeBytes(WelcomeFieldsOf(w)), w.signature)
    then Some(InvalidWelcomeAuthorization)
    else None
  }

  /** `AuthorizedHelperProof::verify`. */
  function VerifyHelperProof(cr: Crypto, p: HelperProof, expectedHelperId: Bytes, expectedSubject: Bytes, now: int)
    : Outcome
  {
    if p.helperId != expectedHelperId || p.subject != expectedSubject then Some(HelperMismatch)
    else if now > p.expiresAt then Some(HelperProofExpired)
    else if !cr.scheme.Verifies(p.helperKey, cr.helperBytes(HelperFieldsOf(p)), p.signature)
    then Some(InvalidHelperProofSignature)
    else None
  }

  /** A Welcome for this invite, in time, for this payload, and signed over all of its fields. */
  predicate GoodWelcome(cr: Crypto, w: Welcome, inviteId: Bytes, payload: Bytes, now: int) {
    && w.inviteId == inviteId && now <= w.expiresAt && w.payloadHash == cr.payloadHash(payload)
    && cr.scheme.Verifies(
         w.issuerKey,
         cr.welcomeBytes(WelcomeFields(inviteId, w.groupId, cr.payloadHash(payload), Millis(w.expiresAt), w.issuerKey)),
         w.signature)
  }

  /** The Welcome check passes good Welcomes and names the first thing wrong with any other. */
  lemma WelcomeExact(cr: Crypto, w: Welcome, inviteId: Bytes, payload: Bytes, now: int)
    ensures var r := VerifyWelcome(cr, w, inviteId, payload, now);
            && (r == None <==> GoodWelcome(cr, w, inviteId, payload, now))
            && (r == Some(WelcomeInviteMismatch) <==> w.inviteId != inviteId)
            && (r == Some(WelcomeExpired) <==> w.inviteId == inviteId && w.expiresAt < now)
            && (r == Some(InvalidWelcomeAuthorization)
                <==> w.inviteId == inviteId && now <= w.expiresAt && !GoodWelcome(cr, w, inviteId, payload, now))
  {
  }

  /** `AuthorizedWelcome::sign`. */
  function SignWelcome(cr: Crypto, inviteId: Bytes, groupId: Bytes, payload: Bytes, expiresAt: int, secret: Bytes)
    : Welcome
  {
    var draft := Welcome(inviteId, groupId, cr.payloadHash(payload), expiresAt, cr.scheme.publicKey(secret), []);
    draft.(signature := cr.scheme.sign(secret, cr.welcomeBytes(WelcomeFieldsOf(draft))))
  }

  /** An honestly signed Welcome passes for its own invite and payload, up to hash collisions, until it expires. */
  lemma HonestWelcomeExact(cr: Crypto, inviteId: Bytes, groupId: Bytes, payload: Bytes, expiresAt: int, secret: Bytes,
                           inviteId': Bytes, payload': Bytes, now: int)
    requires cr.scheme.Complete()
    ensures VerifyWelcome(cr, SignWelcome(cr, inviteId, groupId, payload, expiresAt, secret), inviteId', payload', now)
              .None?
            <==> inviteId' == inviteId && now <= expiresAt
                 && (payload' == payload || Collision(cr.payloadHash, payload', payload))
  {
    var w := SignWelcome(cr, inviteId, groupId, payload, expiresAt, secret);
    assert WelcomeFieldsOf(w) == WelcomeFieldsOf(w.(signature := []));
  }

  /** A proof by this helper about this subject, in time and signed over all of its fields. */
  predicate GoodHelperProof(cr: Crypto, p: HelperProof, helperId: Bytes, subject: Bytes, now: int) {
    && p.helperId == helperId && p.subject == subject && now <= p.expiresAt
    && cr.scheme.Verifies(
         p.helperKey,
         cr.helperBytes(HelperFields(helperId, subject, p.challengeId, Millis(p.expiresAt), p.helperKey)),
         p.signature)
  }

  /** The helper-proof check passes good proofs and names the first thing wrong with any other. */
  lemma HelperProofExact(cr: Crypto, p: HelperProof, helperId: Bytes, subject: Bytes, now: int)
    ensures var r := VerifyHelperProof(cr, p, helperId, subject, now);
            && (r == None <==> GoodHelperProof(cr, p, helperId, subject, now))
            && (r == Some(HelperMismatch) <==> p.helperId != helperId || p.subject != subject)
            && (r == Some(HelperProofExpired) <==> p.helperId == helperId && p.subject == subject && p.expiresAt < now)
            && (r == Some(InvalidHelperProofSignature)
                <==> p.helperId == helperId && p.subject == subject && now <= p.expiresAt
                     && !GoodHelperProof(cr, p, helperId, subject, now))
  {
  }

  // ---- Controllers ----

  datatype Controller = Controller(gate: Gate, maxAttempts: u32, attempts: map<Bytes, u32>)

  function AttemptsOf(c: Controller, subject: Bytes): u32 {
    if subject in c.attempts then c.attempts[subject] else 0
  }

  /** `attempt_password`: only an admissible gate that asks for a password counts the attempt. */
  function AttemptPassword(c: Controller, subject: Bytes, proofOk: bool): (Controller, Outcome) {
    match c.gate
    case OfflineVerifier(_) => (c, Some(OfflineVerifierRejected))
    case NoGate => (c, None)
    case _ =>
      var n := Min(AttemptsOf(c, subject) + 1, U32_MAX);
      (c.(attempts := c.attempts[subject := n]),
       if n > c.maxAttempts || !proofOk then Some(PasswordRejected) else None)
  }

  /** `attempt_online_helper`. */
  function AttemptOnlineHelper(cr: Crypto, c: Controller, subject: Bytes, p: HelperProof, now: int): Outcome {
    match c.gate
    case OfflineVerifier(_) => Some(OfflineVerifierRejected)
    case OnlineHelper(helperId) => VerifyHelperProof(cr, p, helperId, subject, now)
    case _ => Some(HelperMismatch)
  }

  // ---- Any number of controllers working on one invite ----

  datatype World = World(invite: Invite, controllers: seq<Controller>)

  datatype Event =
    | Admit(controller: nat, now: int, subject: Bytes, proofOk: bool, welcome: Option<Welcome>, payload: Bytes)
    | AdmitByHelper(controller: nat, now: int, subject: Bytes, proof: HelperProof, welcome: Option<Welcome>,
                    payload: Bytes)
    | RevokeInvite

  predicate InRange(es: seq<Event>, n: nat) {
    forall e | e in es && !e.RevokeInvite? :: e.controller < n
  }

  function WelcomeResult(cr: Crypto, inviteId: Bytes, e: Event): Outcome
    requires !e.RevokeInvite?
  {
    if e.welcome.None? then Some(WelcomeRequired)
    else VerifyWelcome(cr, e.welcome.value, inviteId, e.payload, e.now)
  }

  /** `finalize_admission`, `finalize_helper_admission` or `revoke`; the result of a revocation is `Ok`. */
  function AdmitStep(cr: Crypto, w: World, e: Event): (World, Outcome)
    requires e.RevokeInvite? || e.controller < |w.controllers|
  {
    match e
    case RevokeInvite => (w.(invite := w.invite.(revoked := true)), None)
    case Admit(controller, now, subject, proofOk, _, _) =>
      if WelcomeResult(cr, w.invite.id, e).Some? then (w, WelcomeResult(cr, w.invite.id, e))
      else
        var (c, gate) := AttemptPassword(w.controllers[controller], subject, proofOk);
        var w' := w.(controllers := w.controllers[controller := c]);
        if gate.Some? then (w', gate)
        else (w'.(invite := Consumed(w.invite, now)), ConsumeResult(w.invite, now))
    case AdmitByHelper(controller, now, subject, proof, _, _) =>
      if WelcomeResult(cr, w.invite.id, e).Some? then (w, WelcomeResult(cr, w.invite.id, e))
      else
        var gate := AttemptOnlineHelper(cr, w.controllers[controller], subject, proof, now);
        if gate.Some? then (w, gate)
        else (w.(invite := Consumed(w.invite, now)), ConsumeResult(w.invite, now))
  }

  function After(cr: Crypto, w: World, es: seq<Event>): (r: World)
    requires InRange(es, |w.controllers|)
    ensures |r.controllers| == |w.controllers|
  {
    if es == [] then w
    else
      assert es[|es| - 1] in es;
      AdmitStep(cr, After(cr, w, es[..|es| - 1]), es[|es| - 1]).0
  }

  function ResultAt(cr: Crypto, w: World, es: seq<Event>, i: nat): Outcome
    requires InRange(es, |w.controllers|) && i < |es|
  {
    assert es[i] in es;
    AdmitStep(cr, After(cr, w, es[..i]), es[i]).1
  }

  // ---- What the history prescribes ----

  /** The number of admissions that succeed. */
  function Admitted(cr: Crypto, w: World, es: seq<Event>): nat
    requires InRange(es, |w.controllers|)
  {
    if es == [] then 0
    else
      Admitted(cr, w, es[..|es| - 1])
      + if !es[|es| - 1].RevokeInvite? && ResultAt(cr, w, es, |es| - 1).None? then 1 else 0
  }

  /** The event brings a good Welcome for the invite. */
  predicate BringsWelcome(cr: Crypto, inviteId: Bytes, e: Event) {
    && !e.RevokeInvite? && e.welcome.Some?
    && GoodWelcome(cr, e.welcome.value, inviteId, e.payload, e.now)
  }

  lemma WelcomeResultExact(cr: Crypto, inviteId: Bytes, e: Event)
    requires !e.RevokeInvite?
    ensures WelcomeResult(cr, inviteId, e).None? <==> BringsWelcome(cr, inviteId, e)
    ensures WelcomeResult(cr, inviteId, e) == Some(WelcomeRequired) <==> e.welcome.None?
  {
    if e.welcome.Some? {
      WelcomeExact(cr, e.welcome.value, inviteId, e.payload, e.now);
    }
  }

  /** Password admissions of one subject at one controller that bring a good Welcome. */
  function PasswordTries(cr: Crypto, inviteId: Bytes, es: seq<Event>, k: nat, subject: Bytes): nat {
    if es == [] then 0
    else
      var e := es[|es| - 1];
      PasswordTries(cr, inviteId, es[..|es| - 1], k, subject)
      + if e.Admit? && e.controller == k && e.subject == subject && BringsWelcome(cr, inviteId, e) then 1 else 0
  }

  predicate CountsAttempts(g: Gate) {
    g.OpaquePake? || g.OnlineHelper?
  }

  /** The invite as a function of the history: a use for every admission so far, and revoked after a revocation. */
  function InviteAfter(cr: Crypto, w: World, es: seq<Event>): Invite
    requires InRange(es, |w.controllers|)
    requires w.invite.uses <= w.invite.maxUses
  {
    w.invite.(uses := Min(w.invite.uses + Admitted(cr, w, es), U32_MAX),
              revoked := w.invite.revoked || RevokeInvite in es)
  }

  /** A step uses the invite once if it admits, revokes it if it revokes, and otherwise leaves it as it is. */
  lemma StepOnInvite(cr: Crypto, w: World, e: Event)
    requires e.RevokeInvite? || e.controller < |w.controllers|
    requires w.invite.uses <= w.invite.maxUses
    ensures var (w', r) := AdmitStep(cr, w, e);
            && (e.RevokeInvite? ==> w'.invite == w.invite.(revoked := true))
            && (!e.RevokeInvite? && r.Some? ==> w'.invite == w.invite)
            && (!e.RevokeInvite? && r.None? ==>
                  w.invite.uses < w.invite.maxUses && w'.invite == w.invite.(uses := w.invite.uses + 1))
  {
  }

  lemma RevokedByNow(es: seq<Event>)
    requires es != []
    ensures RevokeInvite in es <==> RevokeInvite in es[..|es| - 1] || es[|es| - 1].RevokeInvite?
  {
    assert es == es[..|es| - 1] + [es[|es| - 1]];
  }

  /**
   Conservation: over every interleaving of admissions and revocations by any number of controllers, the uses
   rise by exactly the number of successful admissions and stay within the maximum, and nothing else about the
   invite changes but its revocation.
   */
  lemma {:induction false} UsesConserved(cr: Crypto, w: World, es: seq<Event>)
    requires InRange(es, |w.controllers|) && w.invite.uses <= w.invite.maxUses
    ensures w.invite.uses + Admitted(cr, w, es) <= w.invite.maxUses
    ensures After(cr, w, es).invite == InviteAfter(cr, w, es)
  {
    if es == [] {
    } else {
      var init, e := es[..|es| - 1], es[|es| - 1];
      UsesConserved(cr, w, init);
      assert e in es;
      StepOnInvite(cr, After(cr, w, init), e);
      RevokedByNow(es);
    }
  }

  /** A step counts one password try of its own subject at its own controller, if the gate counts at all. */
  lemma StepOnController(cr: Crypto, w: World, e: Event, k: nat, subject: Bytes)
    requires e.RevokeInvite? || e.controller < |w.controllers|
    requires k < |w.controllers|
    ensures var c, c' := w.controllers[k], AdmitStep(cr, w, e).0.controllers[k];
            var counted := e.Admit? && e.controller == k && e.subject == subject && CountsAttempts(c.gate)
                           && BringsWelcome(cr, w.invite.id, e);
            && c'.gate == c.gate && c'.maxAttempts == c.maxAttempts
            && AttemptsOf(c', subject)
               == if counted then Min(AttemptsOf(c, subject) + 1, U32_MAX) else AttemptsOf(c, subject)
  {
  }

  /** Gates never change; a counting gate counts each subject's password tries, saturated, and no other gate counts. */
  lemma {:induction false} AttemptsCounted(cr: Crypto, w: World, es: seq<Event>, k: nat, subject: Bytes)
    requires InRange(es, |w.controllers|) && k < |w.controllers|
    requires w.controllers[k].attempts == map[]
    ensures var c := After(cr, w, es).controllers[k];
            && After(cr, w, es).invite.id == w.invite.id
            && c.gate == w.controllers[k].gate && c.maxAttempts == w.controllers[k].maxAttempts
            && AttemptsOf(c, subject) == if CountsAttempts(c.gate)
                                         then Min(PasswordTries(cr, w.invite.id, es, k, subject), U32_MAX) else 0
  {
    if es == [] {
    } else {
      var init, e := es[..|es| - 1], es[|es| - 1];
      AttemptsCounted(cr, w, init, k, subject);
      assert e in es;
      StepOnController(cr, After(cr, w, init), e, k, subject);
    }
  }

  /** The gate's verdict as a function of the history. */
  function GateVerdict(cr: Crypto, w: World, before: seq<Event>, e: Event): Outcome
    requires !e.RevokeInvite? && e.controller < |w.controllers|
  {
    var c := w.controllers[e.controller];
    if e.AdmitByHelper? then AttemptOnlineHelper(cr, c, e.subject, e.proof, e.now)
    else if c.gate.OfflineVerifier? then Some(OfflineVerifierRejected)
    else if c.gate.NoGate? then None
    else
      var tries := PasswordTries(cr, w.invite.id, before, e.controller, e.subject);
      if (tries >= c.maxAttempts && c.maxAttempts < U32_MAX) || !e.proofOk then Some(PasswordRejected) else None
  }

  /**
   The result of every admission in every run follows from the history alone: first the Welcome, then the gate
   with the subject's earlier tries, then the invite with all earlier admissions and revocations.
   */
  lemma AdmissionExact(cr: Crypto, w: World, es: seq<Event>, i: nat)
    requires InRange(es, |w.controllers|) && w.invite.uses <= w.invite.maxUses
    requires forall c | c in w.controllers :: c.attempts == map[]
    requires i < |es| && !es[i].RevokeInvite?
    ensures es[i] in es
    ensures var e, before := es[i], es[..i];
            ResultAt(cr, w, es, i)
            == if WelcomeResult(cr, w.invite.id, e).Some? then WelcomeResult(cr, w.invite.id, e)
               else if GateVerdict(cr, w, before, e).Some? then GateVerdict(cr, w, before, e)
               else ConsumeResult(InviteAfter(cr, w, before), e.now)
  {
    var e, before := es[i], es[..i];
    assert e in es;
    UsesConserved(cr, w, before);
    assert w.controllers[e.controller] in w.controllers;
    AttemptsCounted(cr, w, before, e.controller, e.subject);
  }

  /** What the gate has to say for an admission, given the password tries before it. */
  predicate GateOpens(cr: Crypto, w: World, before: seq<Event>, e: Event)
    requires !e.RevokeInvite? && e.controller < |w.controllers|
  {
    var c := w.controllers[e.controller];
    match e
    case AdmitByHelper(_, now, subject, proof, _, _) =>
      c.gate.OnlineHelper? && GoodHelperProof(cr, proof, c.gate.helperId, subject, now)
    case Admit(k, _, subject, proofOk, _, _) =>
      || c.gate.NoGate?
      || (CountsAttempts(c.gate) && proofOk
          && (PasswordTries(cr, w.invite.id, before, k, subject) < c.maxAttempts || c.maxAttempts == U32_MAX))
  }

  lemma GateVerdictExact(cr: Crypto, w: World, before: seq<Event>, e: Event)
    requires !e.RevokeInvite? && e.controller < |w.controllers|
    ensures GateVerdict(cr, w, before, e).None? <==> GateOpens(cr, w, before, e)
    ensures GateVerdict(cr, w, before, e) == Some(OfflineVerifierRejected)
            <==> w.controllers[e.controller].gate.OfflineVerifier?
  {
    var c := w.controllers[e.controller];
    if e.AdmitByHelper? && c.gate.OnlineHelper? {
      HelperProofExact(cr, e.proof, c.gate.helperId, e.subject, e.now);
    }
  }

  /**
   An admission succeeds exactly when it brings a good Welcome, the gate opens for it, the invite has neither been
   revoked nor expired, and fewer than the maximum of admissions have succeeded before it.
   */
  lemma AdmittedIff(cr: Crypto, w: World, es: seq<Event>, i: nat)
    requires InRange(es, |w.controllers|) && w.invite.uses <= w.invite.maxUses
    requires forall c | c in w.controllers :: c.attempts == map[]
    requires i < |es| && !es[i].RevokeInvite?
    ensures es[i] in es && InRange(es[..i], |w.controllers|)
    ensures ResultAt(cr, w, es, i).None?
            <==> && BringsWelcome(cr, w.invite.id, es[i]) && GateOpens(cr, w, es[..i], es[i])
                 && !w.invite.revoked && RevokeInvite !in es[..i] && es[i].now <= w.invite.expiresAt
                 && w.invite.uses + Admitted(cr, w, es[..i]) < w.invite.maxUses
  {
    AdmissionExact(cr, w, es, i);
    WelcomeResultExact(cr, w.invite.id, es[i]);
    GateVerdictExact(cr, w, es[..i], es[i]);
    UsesConserved(cr, w, es[..i]);
    ConsumeExact(InviteAfter(cr, w, es[..i]), es[i].now);
  }

  /** No admission succeeds after a revocation or after the invite's or its Welcome's expiry. */
  lemma AdmittedInTime(cr: Crypto, w: World, es: seq<Event>, i: nat)
    requires InRange(es, |w.controllers|) && w.invite.uses <= w.invite.maxUses
    requires forall c | c in w.controllers :: c.attempts == map[]
    requires i < |es| && !es[i].RevokeInvite? && ResultAt(cr, w, es, i).None?
    ensures !w.invite.revoked && RevokeInvite !in es[..i] && es[i].now <= w.invite.expiresAt
    ensures es[i].welcome.Some? && es[i].now <= es[i].welcome.value.expiresAt
  {
    AdmittedIff(cr, w, es, i);
  }

  /** Successful password admissions of one subject at one controller. */
  function PasswordAdmissions(cr: Crypto, w: World, es: seq<Event>, k: nat, subject: Bytes): nat
    requires InRange(es, |w.controllers|)
  {
    if es == [] then 0
    else
      var e := es[|es| - 1];
      PasswordAdmissions(cr, w, es[..|es| - 1], k, subject)
      + if e.Admit? && e.controller == k && e.subject == subject && ResultAt(cr, w, es, |es| - 1).None? then 1 else 0
  }

  /** A counting gate lets a subject in at most `max_attempts` times, however its admissions are interleaved. */
  lemma {:induction false} PasswordQuota(cr: Crypto, w: World, es: seq<Event>, k: nat, subject: Bytes)
    requires InRange(es, |w.controllers|) && w.invite.uses <= w.invite.maxUses
    requires forall c | c in w.controllers :: c.attempts == map[]
    requires k < |w.controllers| && CountsAttempts(w.controllers[k].gate) && w.controllers[k].maxAttempts < U32_MAX
    ensures PasswordAdmissions(cr, w, es, k, subject) <= w.controllers[k].maxAttempts
    ensures PasswordAdmissions(cr, w, es, k, subject) <= PasswordTries(cr, w.invite.id, es, k, subject)
  {
    if es == [] {
    } else {
      var init, e := es[..|es| - 1], es[|es| - 1];
      PasswordQuota(cr, w, init, k, subject);
      if !e.RevokeInvite? {
        AdmissionExact(cr, w, es, |es| - 1);
      }
    }
  }

  // ---- The online helper ----

  datatype Helper = Helper(
    helperId: Bytes, secretKey: Bytes, maxAttempts: u32, proofTtlSeconds: nat, attempts: map<Bytes, u32>)

  datatype Login = Login(subject: Bytes, passwordOk: bool, now: int, challengeId: Bytes)

  function HelperAttempts(h: Helper, subject: Bytes): u32 {
    if subject in h.attempts then h.attempts[subject] else 0
  }

  /** `AuthorizedHelperProof::sign`. */
  function SignHelperProof(cr: Crypto, h: Helper, l: Login): HelperProof {
    var draft := HelperProof(h.helperId, l.subject, l.challengeId, l.now + h.proofTtlSeconds * 1_000_000_000,
                             cr.scheme.publicKey(h.secretKey), []);
    draft.(signature := cr.scheme.sign(h.secretKey, cr.helperBytes(HelperFieldsOf(draft))))
  }

  /** `OnlineAdmissionHelper::authorize`: every attempt counts, right or wrong. */
  function Authorize(cr: Crypto, h: Helper, l: Login): (Helper, Result<HelperProof, InviteError>) {
    var n := Min(HelperAttempts(h, l.subject) + 1, U32_MAX);
    (h.(attempts := h.attempts[l.subject := n]),
     if n > h.maxAttempts || !l.passwordOk then Failure(PasswordRejected) else Success(SignHelperProof(cr, h, l)))
  }

  function HelperAfter(cr: Crypto, h: Helper, ls: seq<Login>): Helper {
    if ls == [] then h else Authorize(cr, HelperAfter(cr, h, ls[..|ls| - 1]), ls[|ls| - 1]).0
  }

  function Logins(ls: seq<Login>, subject: Bytes): nat {
    if ls == [] then 0 else Logins(ls[..|ls| - 1], subject) + if ls[|ls| - 1].subject == subject then 1 else 0
  }

  lemma {:induction false} LoginsCounted(cr: Crypto, h: Helper, ls: seq<Login>, subject: Bytes)
    requires h.attempts == map[]
    ensures HelperAfter(cr, h, ls).(attempts := map[]) == h
    ensures HelperAttempts(HelperAfter(cr, h, ls), subject) == Min(Logins(ls, subject), U32_MAX)
  {
    if ls == [] {
    } else {
      LoginsCounted(cr, h, ls[..|ls| - 1], subject);
    }
  }

  /**
   Over every run, a subject's n-th login gets a proof exactly when the password is right and n <= max_attempts;
   the controller whose gate names this helper accepts that proof for that subject until it expires, and no other
   controller or subject can use it.
   */
  lemma HelperExact(cr: Crypto, h: Helper, before: seq<Login>, l: Login, c: Controller,
                                       subject: Bytes, now: int)
    requires h.attempts == map[] && cr.scheme.Complete()
    ensures var r := Authorize(cr, HelperAfter(cr, h, before), l).1;
            && (r.Success? <==>
                  l.passwordOk && (Logins(before, l.subject) < h.maxAttempts || h.maxAttempts == U32_MAX))
            && (r.Failure? ==> r.error == PasswordRejected)
            && (r.Success? ==>
                  (AttemptOnlineHelper(cr, c, subject, r.value, now).None?
                   <==> c.gate == OnlineHelper(h.helperId) && subject == l.subject
                        && now <= l.now + h.proofTtlSeconds * 1_000_000_000))
  {
    LoginsCounted(cr, h, before, l.subject);
    var p := SignHelperProof(cr, h, l);
    assert HelperFieldsOf(p) == HelperFieldsOf(p.(signature := []));
    assert cr.scheme.Verifies(p.helperKey, cr.helperBytes(HelperFieldsOf(p)), p.signature);
  }

  // ---- The objects ----

  class AdmissionController {
    const crypto: Crypto
    const gate: Gate
    const maxAttempts: u32
    var attempts: map<Bytes, u32>

    function State(): Controller
      reads this
    {
      Controller(gate, maxAttempts, attempts)
    }

    constructor (crypto: Crypto, gate: Gate, maxAttempts: u32)
      ensures this.crypto == crypto && State() == Controller(gate, if maxAttempts == 0 then 1 else maxAttempts, map[])
    {
      this.crypto, this.gate := crypto, gate;
      this.maxAttempts := if maxAttempts == 0 then 1 else maxAttempts;
      attempts := map[];
    }

    method TryPassword(subject: Bytes, proofOk: bool) returns (r: Outcome)
      modifies this
      ensures (State(), r) == AttemptPassword(old(State()), subject, proofOk)
    {
      if gate.OfflineVerifier? {
        return Some(OfflineVerifierRejected);
      }
      if gate.NoGate? {
        return None;
      }
      var n := Min(AttemptsOf(State(), subject) + 1, U32_MAX);
      attempts := attempts[subject := n];
      r := if n > maxAttempts || !proofOk then Some(PasswordRejected) else None;
    }

    method FinalizeAdmission(invite: InviteRecord, now: int, subject: Bytes, proofOk: bool, welcome: Option<Welcome>,
                             payload: Bytes)
      returns (r: Outcome)
      modifies this, invite
      ensures var (w, r') := AdmitStep(crypto, World(old(invite.State()), [old(State())]),
                                  Admit(0, now, subject, proofOk, welcome, payload));
              invite.State() == w.invite && State() == w.controllers[0] && r == r'
    {
      if welcome.None? {
        return Some(WelcomeRequired);
      }
      r := VerifyWelcome(crypto, welcome.value, invite.id, payload, now);
      if r.Some? {
        return;
      }
      r := TryPassword(subject, proofOk);
      if r.Some? {
        return;
      }
      r := invite.Consume(now);
    }

    method FinalizeHelperAdmission(invite: InviteRecord, now: int, subject: Bytes, proof: HelperProof,
                                   welcome: Option<Welcome>, payload: Bytes)
      returns (r: Outcome)
      modifies invite
      ensures var (w, r') := AdmitStep(crypto, World(old(invite.State()), [old(State())]),
                                  AdmitByHelper(0, now, subject, proof, welcome, payload));
              invite.State() == w.invite && State() == w.controllers[0] && r == r'
    {
      if welcome.None? {
        return Some(WelcomeRequired);
      }
      r := VerifyWelcome(crypto, welcome.value, invite.id, payload, now);
      if r.Some? {
        return;
      }
      r := AttemptOnlineHelper(crypto, State(), subject, proof, now);
      if r.Some? {
        return;
      }
      r := invite.Consume(now);
    }
  }

  class OnlineAdmissionHelper {
    const crypto: Crypto
    const helperId: Bytes
    const secretKey: Bytes
    const maxAttempts: u32
    const proofTtlSeconds: nat
    var attempts: map<Bytes, u32>

    function State(): Helper
      reads this
    {
      Helper(helperId, secretKey, maxAttempts, proofTtlSeconds, attempts)
    }

    constructor (crypto: Crypto, helperId: Bytes, secretKey: Bytes, maxAttempts: u32, proofTtlSeconds: int)
      ensures this.crypto == crypto
      ensures State() == Helper(helperId, secretKey, if maxAttempts == 0 then 1 else maxAttempts,
                                Max(proofTtlSeconds, 1), map[])
    {
      this.crypto, this.helperId, this.secretKey := crypto, helperId, secretKey;
      this.maxAttempts := if maxAttempts == 0 then 1 else maxAttempts;
      this.proofTtlSeconds := Max(proofTtlSeconds, 1);
      attempts := map[];
    }

    method AuthorizeLogin(l: Login) returns (r: Result<HelperProof, InviteError>)
      modifies this
      ensures (State(), r) == Authorize(crypto, old(State()), l)
    {
      var n := Min(HelperAttempts(State(), l.subject) + 1, U32_MAX);
      attempts := attempts[l.subject := n];
      if n > maxAttempts || !l.passwordOk {
        return Failure(PasswordRejected);
      }
      r := Success(SignHelperProof(crypto, State(), l));
    }
  }
}
