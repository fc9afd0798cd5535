/**
 The invite signing bytes as the crates produce them: fields and list items appended one after another to a
 growing buffer. Each builder is proved to produce the encoding that `InviteFormat` shows to be uniquely readable.
 */
module InviteBuilder {
  import opened Prelude
  import opened Codec
  import opened InviteFormat

  function SignedStr(t: Bytes): Bytes
    requires |t| < U64
  {
    Length(Little, |t|) + t
  }

  function Byte(on: bool): Bytes {
    [if on then 1 else 0]
  }

  method TextsBytes(ts: seq<Bytes>) returns (bytes: Bytes)
    requires Conforms(STRS, Texts(ts))
    ensures bytes == Encode(STRS, Texts(ts))
  {
    ghost var vs := Texts(ts).vs;
    ghost var w := ItemStages(STR, vs);
    bytes := Length(Little, |ts|);
    for i := 0 to |ts|
      invariant bytes == Length(Little, |ts|) + w[i]
    {
      assert Conforms(STR, vs[i]);
      bytes := bytes + SignedStr(ts[i]);
    }
  }

  method OptTextBytes(t: Option<Bytes>) returns (bytes: Bytes)
    requires Conforms(Opt(STR), OptText(t))
    ensures bytes == Encode(Opt(STR), OptText(t))
  {
    if t.Some? {
      bytes := [1] + SignedStr(t.value);
    } else {
      bytes := [0];
    }
  }

  method TurnBytes(t: TurnServer) returns (bytes: Bytes)
    requires Conforms(TURN, TurnValue(t))
    ensures bytes == Encode(TURN, TurnValue(t))
  {
    ghost var fs, vs := TURN.fields, TurnValue(t).vs;
    ghost var w := Stages(fs, vs);
    assert Conforms(fs[0], vs[0]) && Conforms(fs[1], vs[1]) && Conforms(fs[2], vs[2]) && Conforms(fs[3], vs[3]);
    bytes := SignedStr(t.endpoint);
    assert bytes == w[1];
    var piece := OptTextBytes(t.username);
    bytes := bytes + piece;
    assert bytes == w[2];
    piece := OptTextBytes(t.credential);
    bytes := bytes + piece;
    assert bytes == w[3];
    piece := OptTextBytes(t.credentialExpiresAt);
    bytes := bytes + piece;
    assert bytes == w[4];
  }

  method TurnsBytes(ts: seq<TurnServer>) returns (bytes: Bytes)
    requires Conforms(Many(Little, TURN), TurnsValue(ts))
    ensures bytes == Encode(Many(Little, TURN), TurnsValue(ts))
  {
    ghost var vs := TurnsValue(ts).vs;
    ghost var w := ItemStages(TURN, vs);
    bytes := Length(Little, |ts|);
    for i := 0 to |ts|
      invariant bytes == Length(Little, |ts|) + w[i]
    {
      assert Conforms(TURN, vs[i]);
      var piece := TurnBytes(ts[i]);
      bytes := bytes + piece;
    }
  }

  method IceSigningBytes(p: IcePolicy) returns (bytes: Bytes)
    requires Conforms(ICE, IceValue(p))
    ensures bytes == Encode(ICE, IceValue(p))
  {
    ghost var fs, vs := ICE.fields, IceValue(p).vs;
    ghost var w := Stages(fs, vs);
    assert Conforms(fs[0], vs[0]) && Conforms(fs[1], vs[1]) && Conforms(fs[2], vs[2]);
    bytes := Ascii("discrypt-ice-endpoint-policy-v1");
    assert bytes == w[1];
    var piece := TextsBytes(p.stunServers);
    bytes := bytes + piece;
    assert bytes == w[2];
    piece := TurnsBytes(p.turnServers);
    bytes := bytes + piece;
    assert bytes == w[3];
  }

  method ProfileRouteBytes(p: Profile) returns (bytes: Bytes)
    requires Conforms(PROFILE_ROUTE, ProfileRouteValue(p))
    ensures bytes == Encode(PROFILE_ROUTE, ProfileRouteValue(p))
  {
    ghost var fs, vs := PROFILE_ROUTE.fields, ProfileRouteValue(p).vs;
    ghost var w := Stages(fs, vs);
    assert Conforms(fs[0], vs[0]) && Conforms(fs[1], vs[1]) && Conforms(fs[2], vs[2]);
    assert Conforms(fs[3], vs[3]) && Conforms(fs[4], vs[4]) && Conforms(fs[5], vs[5]);
    bytes := SignedStr(p.profileId);
    assert bytes == w[1];
    bytes := bytes + SignedStr(AdapterName(p.adapterKind));
    assert bytes == w[2];
    var piece := TextsBytes(p.endpoints);
    bytes := bytes + piece;
    assert bytes == w[3];
    bytes := bytes + SignedStr(p.roomTopicCommitment);
    assert bytes == w[4];
    bytes := bytes + SignedStr(p.trustFingerprint);
    assert bytes == w[5];
    bytes := bytes + EncodeNat(Little, 4, p.ttlSeconds);
    assert bytes == w[6];
  }

  method ProfilePolicyBytes(p: Profile) returns (bytes: Bytes)
    requires Conforms(PROFILE_POLICY, ProfilePolicyValue(p))
    ensures bytes == Encode(PROFILE_POLICY, ProfilePolicyValue(p))
  {
    ghost var fs, vs := PROFILE_POLICY.fields, ProfilePolicyValue(p).vs;
    ghost var w := Stages(fs, vs);
    assert Conforms(fs[0], vs[0]) && Conforms(fs[1], vs[1]) && Conforms(fs[2], vs[2]);
    assert Conforms(fs[3], vs[3]) && Conforms(fs[4], vs[4]) && Conforms(fs[5], vs[5]);
    bytes := SignedStr(p.metadataPosture);
    assert bytes == w[1];
    bytes := bytes + SignedStr(p.rateLimitPolicy);
    assert bytes == w[2];
    var piece := TextsBytes(p.capabilities);
    bytes := bytes + piece;
    assert bytes == w[3];
    bytes := bytes + EncodeNat(Little, 4, p.providerPolicyVersion);
    assert bytes == w[4];
    piece := TextsBytes(p.endpointAllowlist);
    bytes := bytes + piece;
    assert bytes == w[5];
    bytes := bytes + SignedStr(p.rotationPolicy);
    assert bytes == w[6];
  }

  method ProfileBytes(p: Profile) returns (bytes: Bytes)
    requires Conforms(PROFILE, ProfileValue(p))
    ensures bytes == Encode(PROFILE, ProfileValue(p))
  {
    ghost var w := Stages(PROFILE.fields, ProfileValue(p).vs);
    assert Conforms(PROFILE.fields[0], ProfileValue(p).vs[0]) && Conforms(PROFILE.fields[1], ProfileValue(p).vs[1]);
    bytes := ProfileRouteBytes(p);
    assert bytes == w[1];
    var piece := ProfilePolicyBytes(p);
    bytes := bytes + piece;
    assert bytes == w[2];
  }

  method ProfilesBytes(ps: seq<Profile>) returns (bytes: Bytes)
    requires Conforms(Many(Little, PROFILE), ProfilesValue(ps))
    ensures bytes == Encode(Many(Little, PROFILE), ProfilesValue(ps))
  {
    ghost var vs := ProfilesValue(ps).vs;
    ghost var w := ItemStages(PROFILE, vs);
    bytes := Length(Little, |ps|);
    for i := 0 to |ps|
      invariant bytes == Length(Little, |ps|) + w[i]
    {
      assert Conforms(PROFILE, vs[i]);
      var piece := ProfileBytes(ps[i]);
      bytes := bytes + piece;
    }
  }

  method ThreeBytes(c: Option<Commitments>) returns (bytes: Bytes)
    requires Conforms(Opt(THREE), ThreeValue(c))
    ensures bytes == Encode(Opt(THREE), ThreeValue(c))
  {
    if c.None? {
      return [0];
    }
    ghost var fs, vs := THREE.fields, ThreeValue(c).v.vs;
    ghost var w := Stages(fs, vs);
    assert Conforms(fs[0], vs[0]) && Conforms(fs[1], vs[1]) && Conforms(fs[2], vs[2]);
    bytes := [1] + SignedStr(c.value.first);
    assert bytes == [1] + w[1];
    bytes := bytes + SignedStr(c.value.second);
    assert bytes == [1] + w[2];
    bytes := bytes + SignedStr(c.value.third);
    assert bytes == [1] + w[3];
  }

  method BootstrapHeadBytes(b: Bootstrap) returns (bytes: Bytes)
    requires Conforms(BOOTSTRAP_HEAD, BootstrapHeadValue(b))
    ensures bytes == Encode(BOOTSTRAP_HEAD, BootstrapHeadValue(b))
  {
    ghost var fs, vs := BOOTSTRAP_HEAD.fields, BootstrapHeadValue(b).vs;
    ghost var w := Stages(fs, vs);
    assert Conforms(fs[1], vs[1]) && Conforms(fs[2], vs[2]) && Conforms(fs[3], vs[3]) && Conforms(fs[4], vs[4]);
    bytes := Ascii("discrypt-invite-bootstrap");
    assert bytes == w[1];
    bytes := bytes + EncodeNat(Little, 4, b.schemaVersion);
    assert bytes == w[2];
    bytes := bytes + SignedStr(KindName(b.kind));
    assert bytes == w[3];
    bytes := bytes + SignedStr(b.scopeCommitment);
    assert bytes == w[4];
    bytes := bytes + SignedStr(b.privacyLabel);
    assert bytes == w[5];
  }

  method BootstrapSigningBytes(b: Bootstrap) returns (bytes: Bytes)
    requires Conforms(BOOTSTRAP, BootstrapValue(b))
    ensures bytes == Encode(BOOTSTRAP, BootstrapValue(b))
  {
    ghost var fs, vs := BOOTSTRAP.fields, BootstrapValue(b).vs;
    ghost var w := Stages(fs, vs);
    assert Conforms(fs[0], vs[0]) && Conforms(fs[1], vs[1]) && Conforms(fs[2], vs[2]) && Conforms(fs[3], vs[3]);
    bytes := BootstrapHeadBytes(b);
    assert bytes == w[1];
    var piece := ProfilesBytes(b.profiles);
    bytes := bytes + piece;
    assert bytes == w[2];
    piece := ThreeBytes(b.dm);
    bytes := bytes + piece;
    assert bytes == w[3];
    piece := ThreeBytes(b.group);
    bytes := bytes + piece;
    assert bytes == w[4];
  }

  method AdmissionBytes(a: AdmissionSnapshot) returns (bytes: Bytes)
    requires Conforms(ADMISSION, AdmissionValue(a))
    ensures bytes == Encode(ADMISSION, AdmissionValue(a))
  {
    ghost var fs, vs := ADMISSION.fields, AdmissionValue(a).vs;
    ghost var w := Stages(fs, vs);
    assert Conforms(fs[0], vs[0]) && Conforms(fs[1], vs[1]) && Conforms(fs[2], vs[2]);
    bytes := SignedStr(a.groupIdCommitment);
    assert bytes == w[1];
    bytes := bytes + SignedStr(a.groupCommitment);
    assert bytes == w[2];
    bytes := bytes + SignedStr(a.admissionMode);
    assert bytes == w[3];
    assert Conforms(fs[3], vs[3]) && Conforms(fs[4], vs[4]) && Conforms(fs[5], vs[5]);
    bytes := bytes + EncodeNat(Little, 8, a.policyEpoch);
    assert bytes == w[4];
    bytes := bytes + SignedStr(a.rolePolicyCommitment);
    assert bytes == w[5];
    bytes := bytes + Byte(a.welcomeRequired);
    assert bytes == w[6];
  }

  method PasswordBytes(p: PasswordPolicy) returns (bytes: Bytes)
    requires Conforms(PASSWORD, PasswordValue(p))
    ensures bytes == Encode(PASSWORD, PasswordValue(p))
  {
    ghost var fs, vs := PASSWORD.fields, PasswordValue(p).vs;
    ghost var w := Stages(fs, vs);
    assert Conforms(fs[0], vs[0]) && Conforms(fs[1], vs[1]) && Conforms(fs[2], vs[2]);
    var helper := OptTextBytes(p.helperId);
    bytes := Byte(p.required);
    assert bytes == w[1];
    bytes := bytes + SignedStr(ProtocolName(p.protocol));
    assert bytes == w[2];
    bytes := bytes + helper;
    assert bytes == w[3];
    assert Conforms(fs[3], vs[3]) && Conforms(fs[4], vs[4]);
    bytes := bytes + SignedStr(p.rateLimitCommitment);
    assert bytes == w[4];
    bytes := bytes + Byte(p.offlineVerifierAllowed);
    assert bytes == w[5];
  }

  method SignalingBytes(s: Signaling) returns (bytes: Bytes)
    requires Conforms(SIGNALING, SignalingValue(s))
    ensures bytes == Encode(SIGNALING, SignalingValue(s))
  {
    ghost var fs, vs := SIGNALING.fields, SignalingValue(s).vs;
    ghost var w := Stages(fs, vs);
    assert Conforms(fs[0], vs[0]) && Conforms(fs[1], vs[1]) && Conforms(fs[2], vs[2]);
    assert Conforms(fs[3], vs[3]) && Conforms(fs[4], vs[4]);
    bytes := SignedStr(s.endpoint);
    assert bytes == w[1];
    bytes := bytes + SignedStr(PolicyName(s.endpointPolicy));
    assert bytes == w[2];
    bytes := bytes + SignedStr(s.fingerprint);
    assert bytes == w[3];
    bytes := bytes + SignedStr(s.trustStatus);
    assert bytes == w[4];
    var icePolicy := IceSigningBytes(s.icePolicy);
    bytes := bytes + SignedStr(icePolicy);
    assert bytes == w[5];
  }

  method InviteHeadBytes(d: Descriptor) returns (bytes: Bytes)
    requires Conforms(INVITE_HEAD, InviteHeadValue(d))
    ensures bytes == Encode(INVITE_HEAD, InviteHeadValue(d))
  {
    ghost var fs, vs := INVITE_HEAD.fields, InviteHeadValue(d).vs;
    ghost var w := Stages(fs, vs);
    assert Conforms(fs[1], vs[1]) && Conforms(fs[2], vs[2]) && Conforms(fs[3], vs[3]);
    bytes := Ascii("discrypt-invite-descriptor");
    bytes := bytes + [1, 0, 0, 0];
    assert bytes == w[1];
    bytes := bytes + SignedStr(d.inviteId);
    assert bytes == w[2];
    bytes := bytes + d.roomSecretCommitment;
    assert bytes == w[3];
    bytes := bytes + SignedStr(d.issuerKey);
    assert bytes == w[4];
  }

  method RevocationBytes(r: RevocationPolicy) returns (bytes: Bytes)
    requires Conforms(REVOCATION, RevocationValue(r))
    ensures bytes == Encode(REVOCATION, RevocationValue(r))
  {
    ghost var fs, vs := REVOCATION.fields, RevocationValue(r).vs;
    ghost var w := Stages(fs, vs);
    assert Conforms(fs[1], vs[1]);
    bytes := Byte(r.revocable);
    assert bytes == w[1];
    bytes := bytes + SignedStr(r.authorityCommitment);
    assert bytes == w[2];
    bytes := bytes + Byte(r.expiryEnforced);
    assert bytes == w[3];
    bytes := bytes + Byte(r.maxUseEnforced);
    assert bytes == w[4];
  }

  method OptBootstrapBytes(b: Option<Bootstrap>) returns (bytes: Bytes)
    requires Conforms(Opt(Framed(Little, BOOTSTRAP)), OptBootstrap(b))
    ensures bytes == Encode(Opt(Framed(Little, BOOTSTRAP)), OptBootstrap(b))
  {
    bytes := [0];
    if b.Some? {
      var body := BootstrapSigningBytes(b.value);
      bytes := [1] + SignedStr(body);
    }
  }

  method OptAdmissionBytes(a: Option<AdmissionSnapshot>) returns (bytes: Bytes)
    requires Conforms(Opt(ADMISSION), OptAdmission(a))
    ensures bytes == Encode(Opt(ADMISSION), OptAdmission(a))
  {
    bytes := [0];
    if a.Some? {
      var body := AdmissionBytes(a.value);
      bytes := [1] + body;
    }
  }

  method OptPasswordBytes(p: Option<PasswordPolicy>) returns (bytes: Bytes)
    requires Conforms(Opt(PASSWORD), OptPassword(p))
    ensures bytes == Encode(Opt(PASSWORD), OptPassword(p))
  {
    bytes := [0];
    if p.Some? {
      var body := PasswordBytes(p.value);
      bytes := [1] + body;
    }
  }

  /** `canonical_invite_signing_bytes`: the appended buffer is the encoding, which reads back in one way only. */
  method CanonicalInviteSigningBytes(d: Descriptor) returns (bytes: Bytes)
    requires Encodable(d)
    ensures bytes == SigningBytes(d)
  {
    ghost var fs, vs := INVITE.fields, InviteValue(d).vs;
    ghost var w := Stages(fs, vs);
    assert Conforms(fs[0], vs[0]) && Conforms(fs[1], vs[1]) && Conforms(fs[2], vs[2]) && Conforms(fs[3], vs[3]);
    bytes := InviteHeadBytes(d);
    assert bytes == w[1];
    var piece := SignalingBytes(d.signaling);
    bytes := bytes + piece;
    assert bytes == w[2];
    piece := OptBootstrapBytes(d.bootstrap);
    bytes := bytes + piece;
    assert bytes == w[3];
    piece := OptAdmissionBytes(d.admission);
    bytes := bytes + piece;
    assert bytes == w[4];
    assert Conforms(fs[4], vs[4]) && Conforms(fs[5], vs[5]) && Conforms(fs[6], vs[6]) && Conforms(fs[7], vs[7]);
    piece := RevocationBytes(d.revocation);
    bytes := bytes + piece;
    assert bytes == w[5];
    piece := OptPasswordBytes(d.password);
    bytes := bytes + piece;
    assert bytes == w[6];
    bytes := bytes + EncodeNat(Little, 8, Bits64(d.expiresMs));
    assert bytes == w[7];
    bytes := bytes + EncodeNat(Little, 4, d.maxUses);
    assert bytes == w[8];
  }
}
