/** What a signature binds: verification over the canonical signing bytes of invites, Welcomes and helper proofs. */
module InviteIntegrity {
  import opened Prelude
  import opened InviteFormat
  import opened InviteMetadata
  import opened Invites
  import opened Signatures
  import opened SignedMessages
  import opened Admission

  /** `StoredInvite::signing_bytes` as a total function; every value a Rust program can hold is encodable. */
  function CanonicalBytes(d: Descriptor): Bytes {
    if Encodable(d) then SigningBytes(d) else []
  }

  /**
   Given one invite that verifies, another one with the same issuer key and signature verifies exactly when it
   agrees on every signed field, on the expiry only to the millisecond, and has schema version 1. Use counts and
   revocations are free, everything else is bound.
   */
  lemma SignatureBindsInvite(env: Env, s: StoredInvite, s': StoredInvite)
    requires env.encode == CanonicalBytes && env.scheme.Binding()
    requires Encodable(DescriptorOf(s)) && Encodable(DescriptorOf(s'))
    requires VerifyIssuerSignature(env, s).None?
    requires s'.issuerKey == s.issuerKey && s'.issuerSignature == s.issuerSignature
    ensures VerifyIssuerSignature(env, s').None?
            <==> s'.schemaVersion == 1 && DescriptorOf(s') == DescriptorOf(s)
  {
    var d, d' := DescriptorOf(s), DescriptorOf(s');
    if VerifyIssuerSignature(env, s').None? {
      assert env.scheme.Verifies(s.issuerKey, SigningBytes(d), s.issuerSignature);
      assert env.scheme.Verifies(s.issuerKey, SigningBytes(d'), s.issuerSignature);
      assert SigningBytes(d) + [] == SigningBytes(d') + [];
      InviteUniqueReading(d, [], d', []);
    }
  }

  function CanonicalWelcomeBytes(w: WelcomeFields): Bytes {
    if WelcomeFits(w) then WelcomeBytes(w) else []
  }

  function CanonicalHelperBytes(h: HelperFields): Bytes {
    if HelperFits(h) then HelperBytes(h) else []
  }

  /** One Welcome signature under one key authorizes one payload, up to hash collisions, for one invite and group. */
  lemma SignatureBindsWelcome(cr: Crypto, w: Welcome, id: Bytes, payload: Bytes, now: int,
                              w': Welcome, id': Bytes, payload': Bytes, now': int)
    requires cr.welcomeBytes == CanonicalWelcomeBytes && cr.scheme.Binding()
    requires WelcomeFits(WelcomeFieldsOf(w)) && WelcomeFits(WelcomeFieldsOf(w'))
    requires VerifyWelcome(cr, w, id, payload, now).None? && VerifyWelcome(cr, w', id', payload', now').None?
    requires w.issuerKey == w'.issuerKey && w.signature == w'.signature
    ensures id == id' && w.groupId == w'.groupId && Millis(w.expiresAt) == Millis(w'.expiresAt)
    ensures payload == payload' || Collision(cr.payloadHash, payload, payload')
  {
    var f, f' := WelcomeFieldsOf(w), WelcomeFieldsOf(w');
    assert cr.scheme.Verifies(w.issuerKey, WelcomeBytes(f), w.signature);
    assert cr.scheme.Verifies(w.issuerKey, WelcomeBytes(f'), w.signature);
    assert WelcomeBytes(f) + [] == WelcomeBytes(f') + [];
    WelcomeUniqueReading(f, [], f', []);
  }

  /** One helper signature under one key vouches for one subject at one helper. */
  lemma SignatureBindsHelperProof(cr: Crypto, p: HelperProof, helper: Bytes, subject: Bytes, now: int,
                                  p': HelperProof, helper': Bytes, subject': Bytes, now': int)
    requires cr.helperBytes == CanonicalHelperBytes && cr.scheme.Binding()
    requires HelperFits(HelperFieldsOf(p)) && HelperFits(HelperFieldsOf(p'))
    requires VerifyHelperProof(cr, p, helper, subject, now).None?
    requires VerifyHelperProof(cr, p', helper', subject', now').None?
    requires p.helperKey == p'.helperKey && p.signature == p'.signature
    ensures helper == helper' && subject == subject' && p.challengeId == p'.challengeId
            && Millis(p.expiresAt) == Millis(p'.expiresAt)
  {
    var f, f' := HelperFieldsOf(p), HelperFieldsOf(p');
    assert cr.scheme.Verifies(p.helperKey, HelperBytes(f), p.signature);
    assert cr.scheme.Verifies(p.helperKey, HelperBytes(f'), p.signature);
    assert HelperBytes(f) + [] == HelperBytes(f') + [];
    HelperUniqueReading(f, [], f', []);
  }
}
