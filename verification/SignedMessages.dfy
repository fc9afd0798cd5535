/**
 The other signed messages: Welcome authorizations, online-helper proofs and live-key membership proofs, each
 with its own domain tag.
 */
module SignedMessages {
  import opened Prelude
  import opened Codec
  import opened InviteFormat
  import opened Signatures

  /** Signed fields of `AuthorizedWelcome`; the expiry is in milliseconds. */
  datatype WelcomeFields = WelcomeFields(
    inviteId: Bytes, groupId: Bytes, payloadHash: Bytes, expiresMs: int, issuerKey: Bytes)

  /** Signed fields of `AuthorizedHelperProof`; the challenge id is a UUID of 16 bytes. */
  datatype HelperFields = HelperFields(
    helperId: Bytes, subject: Bytes, challengeId: Bytes, expiresMs: int, helperKey: Bytes)

  /** The transcript of a live-key `MembershipProof`. */
  datatype MembershipFields = MembershipFields(
    requesterLeaf: nat, epoch: nat, groupId: Bytes, groupCommitment: Bytes, deviceKey: Bytes)

  const WELCOME: Schema :=
    Record([Const(Ascii("discrypt-authorized-welcome") + [1]), STR, STR, Exact(32), U64LE, STR])
  const HELPER: Schema :=
    Record([Const(Ascii("discrypt-online-helper-proof") + [1]), STR, STR, Exact(16), U64LE, STR])
  const MEMBERSHIP: Schema :=
    Record([Const(Ascii("discrypt-live-key" + "-membership-proof-v1")), Nat(Big, 4), Nat(Big, 8), Blob(Big),
            Exact(32), Exact(32)])
  const COMMITMENT: Schema :=
    Record([Const(Ascii("discrypt-live-key" + "-epoch-group-commitment-v1")), Nat(Big, 8), Many(Big, Nat(Big, 4))])

  function WelcomeValue(w: WelcomeFields): Value
    requires I64_MIN <= w.expiresMs <= I64_MAX
  {
    Items([Unit, Raw(w.inviteId), Raw(w.groupId), Raw(w.payloadHash), Num(Bits64(w.expiresMs)), Raw(w.issuerKey)])
  }

  function HelperValue(h: HelperFields): Value
    requires I64_MIN <= h.expiresMs <= I64_MAX
  {
    Items([Unit, Raw(h.helperId), Raw(h.subject), Raw(h.challengeId), Num(Bits64(h.expiresMs)), Raw(h.helperKey)])
  }

  function MembershipValue(m: MembershipFields): Value {
    Items([Unit, Num(m.requesterLeaf), Num(m.epoch), Raw(m.groupId), Raw(m.groupCommitment), Raw(m.deviceKey)])
  }

  lemma SixConform(fs: seq<Schema>, vs: seq<Value>)
    requires |fs| == |vs| == 6
    ensures ConformFields(fs, vs)
            <==> && Conforms(fs[0], vs[0]) && Conforms(fs[1], vs[1]) && Conforms(fs[2], vs[2])
                 && Conforms(fs[3], vs[3]) && Conforms(fs[4], vs[4]) && Conforms(fs[5], vs[5])
  {
    if ConformFields(fs, vs) {
      var w := Stages(fs, vs);
    } else if forall k | 0 <= k < 6 :: Conforms(fs[k], vs[k]) {
      ConformsEach(fs, vs);
    }
  }

  predicate WelcomeFits(w: WelcomeFields) {
    I64_MIN <= w.expiresMs <= I64_MAX && Conforms(WELCOME, WelcomeValue(w))
  }

  predicate HelperFits(h: HelperFields) {
    I64_MIN <= h.expiresMs <= I64_MAX && Conforms(HELPER, HelperValue(h))
  }

  predicate MembershipFits(m: MembershipFields) {
    Conforms(MEMBERSHIP, MembershipValue(m))
  }

  /** A Welcome fits exactly if its lengths fit a `u64`, its hash has 32 bytes and its expiry fits an `i64`. */
  lemma WelcomeFitsExact(w: WelcomeFields)
    ensures WelcomeFits(w)
            <==> && |w.inviteId| < U64 && |w.groupId| < U64 && |w.payloadHash| == 32 && |w.issuerKey| < U64
                 && -0x8000_0000_0000_0000 <= w.expiresMs < 0x8000_0000_0000_0000
  {
    if I64_MIN <= w.expiresMs <= I64_MAX {
      WidthOf8();
      Bits64Exact(w.expiresMs);
      SixConform(WELCOME.fields, WelcomeValue(w).vs);
    }
  }

  /** The same for a helper proof, whose challenge id has 16 bytes. */
  lemma HelperFitsExact(h: HelperFields)
    ensures HelperFits(h)
            <==> && |h.helperId| < U64 && |h.subject| < U64 && |h.challengeId| == 16 && |h.helperKey| < U64
                 && -0x8000_0000_0000_0000 <= h.expiresMs < 0x8000_0000_0000_0000
  {
    if I64_MIN <= h.expiresMs <= I64_MAX {
      WidthOf8();
      Bits64Exact(h.expiresMs);
      SixConform(HELPER.fields, HelperValue(h).vs);
    }
  }

  function WelcomeBytes(w: WelcomeFields): Bytes
    requires WelcomeFits(w)
  {
    Encode(WELCOME, WelcomeValue(w))
  }

  function HelperBytes(h: HelperFields): Bytes
    requires HelperFits(h)
  {
    Encode(HELPER, HelperValue(h))
  }

  function MembershipBytes(m: MembershipFields): Bytes
    requires MembershipFits(m)
  {
    Encode(MEMBERSHIP, MembershipValue(m))
  }

  /** Welcome bytes, followed by anything, determine every signed field and what follows. */
  lemma WelcomeUniqueReading(a: WelcomeFields, rest: Bytes, b: WelcomeFields, rest': Bytes)
    requires WelcomeFits(a) && WelcomeFits(b)
    requires WelcomeBytes(a) + rest == WelcomeBytes(b) + rest'
    ensures a == b && rest == rest'
  {
    UniqueReading(WELCOME, WelcomeValue(a), rest, WelcomeValue(b), rest');
    var va, vb := WelcomeValue(a).vs, WelcomeValue(b).vs;
    assert va[1] == vb[1] && va[2] == vb[2] && va[3] == vb[3] && va[4] == vb[4] && va[5] == vb[5];
  }

  lemma HelperUniqueReading(a: HelperFields, rest: Bytes, b: HelperFields, rest': Bytes)
    requires HelperFits(a) && HelperFits(b)
    requires HelperBytes(a) + rest == HelperBytes(b) + rest'
    ensures a == b && rest == rest'
  {
    UniqueReading(HELPER, HelperValue(a), rest, HelperValue(b), rest');
    var va, vb := HelperValue(a).vs, HelperValue(b).vs;
    assert va[1] == vb[1] && va[2] == vb[2] && va[3] == vb[3] && va[4] == vb[4] && va[5] == vb[5];
  }

  lemma MembershipUniqueReading(a: MembershipFields, rest: Bytes, b: MembershipFields, rest': Bytes)
    requires MembershipFits(a) && MembershipFits(b)
    requires MembershipBytes(a) + rest == MembershipBytes(b) + rest'
    ensures a == b && rest == rest'
  {
    UniqueReading(MEMBERSHIP, MembershipValue(a), rest, MembershipValue(b), rest');
    var va, vb := MembershipValue(a).vs, MembershipValue(b).vs;
    assert va[1] == vb[1] && va[2] == vb[2] && va[3] == vb[3] && va[4] == vb[4] && va[5] == vb[5];
  }

  // ---- Domain separation ----

  lemma TagAt(tag: Bytes, fields: seq<Schema>, vs: seq<Value>, i: nat)
    requires Conforms(Record(fields), Items(vs)) && fields != [] && fields[0] == Const(tag) && i < |tag|
    ensures |Encode(Record(fields), Items(vs))| > i && Encode(Record(fields), Items(vs))[i] == tag[i]
  {
    FirstField(Const(tag), fields, vs[0], vs);
  }

  lemma InviteTag(d: Descriptor)
    requires Encodable(d)
    ensures |SigningBytes(d)| > 9 && SigningBytes(d)[9] == 'i' as int
  {
    FirstField(INVITE_HEAD, INVITE.fields, InviteHeadValue(d), InviteValue(d).vs);
    TagAt(Ascii("discrypt-invite-descriptor") + SCHEMA_VERSION, INVITE_HEAD.fields, InviteHeadValue(d).vs, 9);
  }

  lemma WelcomeTag(w: WelcomeFields)
    requires WelcomeFits(w)
    ensures |WelcomeBytes(w)| > 9 && WelcomeBytes(w)[9] == 'a' as int
  {
    TagAt(Ascii("discrypt-authorized-welcome") + [1], WELCOME.fields, WelcomeValue(w).vs, 9);
  }

  lemma HelperTag(h: HelperFields)
    requires HelperFits(h)
    ensures |HelperBytes(h)| > 9 && HelperBytes(h)[9] == 'o' as int
  {
    TagAt(Ascii("discrypt-online-helper-proof") + [1], HELPER.fields, HelperValue(h).vs, 9);
  }

  lemma MembershipTag(m: MembershipFields)
    requires MembershipFits(m)
    ensures |MembershipBytes(m)| > 9 && MembershipBytes(m)[9] == 'l' as int
  {
    TagAt(Ascii("discrypt-live-key" + "-membership-proof-v1"), MEMBERSHIP.fields, MembershipValue(m).vs, 9);
  }

  /** Neither of two messages at different positions is a prefix of the other. */
  ghost predicate PairwiseApart(messages: seq<Bytes>) {
    forall i, j | 0 <= i < |messages| && 0 <= j < |messages| && i != j :: !(messages[i] <= messages[j])
  }

  lemma TenthByteApart(a: Bytes, b: Bytes, c: Bytes, d: Bytes)
    requires |a| > 9 && |b| > 9 && |c| > 9 && |d| > 9
    requires a[9] != b[9] && a[9] != c[9] && a[9] != d[9] && b[9] != c[9] && b[9] != d[9] && c[9] != d[9]
    ensures PairwiseApart([a, b, c, d])
  {
    var messages := [a, b, c, d];
    forall i, j | 0 <= i < 4 && 0 <= j < 4 && i != j ensures !(messages[i] <= messages[j]) {
      assert messages[i][9] != messages[j][9];
    }
  }

  /**
   No signed message of one kind is a prefix of a message of another kind, so a signature made for one is never
   a signature for another: the four tags already differ in their tenth byte.
   */
  lemma DomainsDisjoint(d: Descriptor, w: WelcomeFields, h: HelperFields, m: MembershipFields)
    requires Encodable(d) && WelcomeFits(w) && HelperFits(h) && MembershipFits(m)
    ensures PairwiseApart([SigningBytes(d), WelcomeBytes(w), HelperBytes(h), MembershipBytes(m)])
  {
    InviteTag(d);
    WelcomeTag(w);
    HelperTag(h);
    MembershipTag(m);
    TenthByteApart(SigningBytes(d), WelcomeBytes(w), HelperBytes(h), MembershipBytes(m));
  }

  lemma ApartUnderBinding(sch: Scheme, key: Bytes, signature: Bytes, messages: seq<Bytes>)
    requires sch.Binding() && PairwiseApart(messages)
    ensures forall i, j | 0 <= i < |messages| && 0 <= j < |messages| && i != j ::
              !(sch.Verifies(key, messages[i], signature) && sch.Verifies(key, messages[j], signature))
  {
    forall i, j | 0 <= i < |messages| && 0 <= j < |messages| && i != j
      ensures !(sch.Verifies(key, messages[i], signature) && sch.Verifies(key, messages[j], signature))
    {
      assert !(messages[i] <= messages[j]);
      assert messages[i] != messages[j];
    }
  }

  /** Under ideal signatures no signature, under any key, is valid for two kinds of message. */
  lemma NoCrossUse(sch: Scheme, key: Bytes, signature: Bytes, d: Descriptor, w: WelcomeFields, h: HelperFields,
                   m: MembershipFields)
    requires sch.Binding()
    requires Encodable(d) && WelcomeFits(w) && HelperFits(h) && MembershipFits(m)
    ensures var messages := [SigningBytes(d), WelcomeBytes(w), HelperBytes(h), MembershipBytes(m)];
            forall i, j | 0 <= i < 4 && 0 <= j < 4 && i != j ::
              !(sch.Verifies(key, messages[i], signature) && sch.Verifies(key, messages[j], signature))
  {
    DomainsDisjoint(d, w, h, m);
    ApartUnderBinding(sch, key, signature, [SigningBytes(d), WelcomeBytes(w), HelperBytes(h), MembershipBytes(m)]);
  }
}
