/** The Welcome, helper-proof and live-key messages as the crates produce them, appended piece by piece. */
module MessageBuilders {
  import opened Prelude
  import opened Codec
  import opened InviteFormat
  import opened InviteBuilder
  import opened SignedMessages

  /** `canonical_welcome_authorization_bytes`. */
  method WelcomeSigningBytes(f: WelcomeFields) returns (bytes: Bytes)
    requires WelcomeFits(f)
    ensures bytes == WelcomeBytes(f)
  {
    ghost var fs, vs := WELCOME.fields, WelcomeValue(f).vs;
    ghost var w := Stages(fs, vs);
    assert Conforms(fs[0], vs[0]) && Conforms(fs[1], vs[1]) && Conforms(fs[2], vs[2]);
    bytes := Ascii("discrypt-authorized-welcome") + [1];
    assert bytes == w[1];
    bytes := bytes + SignedStr(f.inviteId);
    assert bytes == w[2];
    bytes := bytes + SignedStr(f.groupId);
    assert bytes == w[3];
    assert Conforms(fs[3], vs[3]) && Conforms(fs[4], vs[4]) && Conforms(fs[5], vs[5]);
    bytes := bytes + f.payloadHash;
    assert bytes == w[4];
    bytes := bytes + EncodeNat(Little, 8, Bits64(f.expiresMs));
    assert bytes == w[5];
    bytes := bytes + SignedStr(f.issuerKey);
    assert bytes == w[6];
  }

  /** `canonical_helper_proof_bytes`. */
  method HelperSigningBytes(f: HelperFields) returns (bytes: Bytes)
    requires HelperFits(f)
    ensures bytes == HelperBytes(f)
  {
    ghost var fs, vs := HELPER.fields, HelperValue(f).vs;
    ghost var w := Stages(fs, vs);
    assert Conforms(fs[0], vs[0]) && Conforms(fs[1], vs[1]) && Conforms(fs[2], vs[2]);
    bytes := Ascii("discrypt-online-helper-proof") + [1];
    assert bytes == w[1];
    bytes := bytes + SignedStr(f.helperId);
    assert bytes == w[2];
    bytes := bytes + SignedStr(f.subject);
    assert bytes == w[3];
    assert Conforms(fs[3], vs[3]) && Conforms(fs[4], vs[4]) && Conforms(fs[5], vs[5]);
    bytes := bytes + f.challengeId;
    assert bytes == w[4];
    bytes := bytes + EncodeNat(Little, 8, Bits64(f.expiresMs));
    assert bytes == w[5];
    bytes := bytes + SignedStr(f.helperKey);
    assert bytes == w[6];
  }

  /** `membership_proof_transcript`. */
  method TranscriptBytes(f: MembershipFields) returns (bytes: Bytes)
    requires MembershipFits(f)
    ensures bytes == MembershipBytes(f)
  {
    ghost var fs, vs := MEMBERSHIP.fields, MembershipValue(f).vs;
    ghost var w := Stages(fs, vs);
    assert Conforms(fs[0], vs[0]) && Conforms(fs[1], vs[1]) && Conforms(fs[2], vs[2]);
    bytes := Ascii("discrypt-live-key" + "-membership-proof-v1");
    assert bytes == w[1];
    bytes := bytes + EncodeNat(Big, 4, f.requesterLeaf);
    assert bytes == w[2];
    bytes := bytes + EncodeNat(Big, 8, f.epoch);
    assert bytes == w[3];
    assert Conforms(fs[3], vs[3]) && Conforms(fs[4], vs[4]) && Conforms(fs[5], vs[5]);
    bytes := bytes + Length(Big, |f.groupId|) + f.groupId;
    assert bytes == w[4];
    bytes := bytes + f.groupCommitment;
    assert bytes == w[5];
    bytes := bytes + f.deviceKey;
    assert bytes == w[6];
  }
}
