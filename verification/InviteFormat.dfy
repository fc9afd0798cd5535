/**
 The signed invite descriptor (`canonical_invite_signing_bytes`), with its nested ICE endpoint policy and
 bootstrap metadata, the Welcome authorization and the online-helper proof.
 */
module InviteFormat {
  import opened Prelude
  import opened Codec

  datatype EndpointPolicy = ProductionTls | LocalDevLoopback
  datatype InviteKind = GroupJoin | DmContact | DevicePairing
  datatype AdapterKind = Mqtt | Nostr | IpfsPubsub | DiscryptQuicRendezvous
  datatype PasswordProtocol = OnlineAuthorizedHelper | OpaquePakeReserved

  datatype TurnServer = TurnServer(
    endpoint: Bytes, username: Option<Bytes>, credential: Option<Bytes>, credentialExpiresAt: Option<Bytes>)

  datatype IcePolicy = IcePolicy(stunServers: seq<Bytes>, turnServers: seq<TurnServer>)

  datatype Signaling = Signaling(
    endpoint: Bytes, endpointPolicy: EndpointPolicy, fingerprint: Bytes, trustStatus: Bytes, icePolicy: IcePolicy)

  datatype Profile = Profile(
    profileId: Bytes, adapterKind: AdapterKind, endpoints: seq<Bytes>, roomTopicCommitment: Bytes,
    trustFingerprint: Bytes, ttlSeconds: nat, metadataPosture: Bytes, rateLimitPolicy: Bytes,
    capabilities: seq<Bytes>, providerPolicyVersion: nat, endpointAllowlist: seq<Bytes>, rotationPolicy: Bytes)

  datatype Commitments = Commitments(first: Bytes, second: Bytes, third: Bytes)

  datatype Bootstrap = Bootstrap(
    schemaVersion: nat, kind: InviteKind, scopeCommitment: Bytes, profiles: seq<Profile>, privacyLabel: Bytes,
    dm: Option<Commitments>, group: Option<Commitments>)

  datatype AdmissionSnapshot = AdmissionSnapshot(
    groupIdCommitment: Bytes, groupCommitment: Bytes, admissionMode: Bytes, policyEpoch: nat,
    rolePolicyCommitment: Bytes, welcomeRequired: bool)

  datatype RevocationPolicy = RevocationPolicy(
    revocable: bool, authorityCommitment: Bytes, expiryEnforced: bool, maxUseEnforced: bool)

  datatype PasswordPolicy = PasswordPolicy(
    required: bool, protocol: PasswordProtocol, helperId: Option<Bytes>, rateLimitCommitment: Bytes,
    offlineVerifierAllowed: bool)

  /** What an invite signature covers; the expiry is in milliseconds. */
  datatype Descriptor = Descriptor(
    inviteId: Bytes, roomSecretCommitment: Bytes, issuerKey: Bytes, signaling: Signaling,
    bootstrap: Option<Bootstrap>, admission: Option<AdmissionSnapshot>, revocation: RevocationPolicy,
    password: Option<PasswordPolicy>, expiresMs: int, maxUses: nat)

  /** `INVITE_DESCRIPTOR_SCHEMA_VERSION.to_le_bytes()`. */
  const SCHEMA_VERSION: Bytes := [1, 0, 0, 0]

  // ---- Names ----

  function PolicyName(p: EndpointPolicy): Bytes {
    match p
    case ProductionTls => Ascii("production_tls")
    case LocalDevLoopback => Ascii("local_dev_loopback")
  }

  function KindName(k: InviteKind): Bytes {
    match k
    case GroupJoin => Ascii("group_join")
    case DmContact => Ascii("dm_contact")
    case DevicePairing => Ascii("device_pairing")
  }

  function AdapterName(a: AdapterKind): Bytes {
    match a
    case Mqtt => Ascii("mqtt")
    case Nostr => Ascii("nostr")
    case IpfsPubsub => Ascii("ipfs_pubsub")
    case DiscryptQuicRendezvous => Ascii("discrypt_quic_rendezvous")
  }

  function ProtocolName(p: PasswordProtocol): Bytes {
    match p
    case OnlineAuthorizedHelper => Ascii("online_authorized_helper")
    case OpaquePakeReserved => Ascii("opaque_pake_reserved")
  }

  lemma NamesDiffer(p: EndpointPolicy, p': EndpointPolicy, k: InviteKind, k': InviteKind,
                    a: AdapterKind, a': AdapterKind, w: PasswordProtocol, w': PasswordProtocol)
    ensures PolicyName(p) == PolicyName(p') ==> p == p'
    ensures KindName(k) == KindName(k') ==> k == k'
    ensures AdapterName(a) == AdapterName(a') ==> a == a'
    ensures ProtocolName(w) == ProtocolName(w') ==> w == w'
  {
    assert KindName(GroupJoin)[0] != KindName(DmContact)[0];
  }

  // ---- Schemas and the values they carry ----

  const STR: Schema := Blob(Little)
  const U32LE: Schema := Nat(Little, 4)
  const U64LE: Schema := Nat(Little, 8)
  const STRS: Schema := Many(Little, STR)
  const TURN: Schema := Record([STR, Opt(STR), Opt(STR), Opt(STR)])
  const ICE: Schema := Record([Const(Ascii("discrypt-ice-endpoint-policy-v1")), STRS, Many(Little, TURN)])
  const PROFILE_ROUTE: Schema := Record([STR, STR, STRS, STR, STR, U32LE])
  const PROFILE_POLICY: Schema := Record([STR, STR, STRS, U32LE, STRS, STR])
  const PROFILE: Schema := Record([PROFILE_ROUTE, PROFILE_POLICY])
  const THREE: Schema := Record([STR, STR, STR])
  const BOOTSTRAP_HEAD: Schema :=
    Record([Const(Ascii("discrypt-invite-bootstrap")), U32LE, STR, STR, STR])
  const BOOTSTRAP: Schema := Record([BOOTSTRAP_HEAD, Many(Little, PROFILE), Opt(THREE), Opt(THREE)])
  const ADMISSION: Schema := Record([STR, STR, STR, U64LE, STR, Flag])
  const PASSWORD: Schema := Record([Flag, STR, Opt(STR), STR, Flag])
  const REVOCATION: Schema := Record([Flag, STR, Flag, Flag])
  const SIGNALING: Schema := Record([STR, STR, STR, STR, Framed(Little, ICE)])
  const INVITE_HEAD: Schema :=
    Record([Const(Ascii("discrypt-invite-descriptor") + SCHEMA_VERSION), STR, Exact(32), STR])
  const INVITE: Schema :=
    Record([INVITE_HEAD, SIGNALING, Opt(Framed(Little, BOOTSTRAP)), Opt(ADMISSION), REVOCATION, Opt(PASSWORD),
            U64LE, U32LE])

  function Texts(ts: seq<Bytes>): Value {
    Items(seq(|ts|, i requires 0 <= i < |ts| => Raw(ts[i])))
  }

  function OptText(t: Option<Bytes>): Value {
    if t.None? then Absent else Present(Raw(t.value))
  }

  function TurnValue(t: TurnServer): Value {
    Items([Raw(t.endpoint), OptText(t.username), OptText(t.credential), OptText(t.credentialExpiresAt)])
  }

  function TurnsValue(ts: seq<TurnServer>): Value {
    Items(seq(|ts|, i requires 0 <= i < |ts| => TurnValue(ts[i])))
  }

  function IceValue(p: IcePolicy): Value {
    Items([Unit, Texts(p.stunServers), TurnsValue(p.turnServers)])
  }

  function ProfileRouteValue(p: Profile): Value {
    Items([Raw(p.profileId), Raw(AdapterName(p.adapterKind)), Texts(p.endpoints), Raw(p.roomTopicCommitment),
           Raw(p.trustFingerprint), Num(p.ttlSeconds)])
  }

  function ProfilePolicyValue(p: Profile): Value {
    Items([Raw(p.metadataPosture), Raw(p.rateLimitPolicy), Texts(p.capabilities), Num(p.providerPolicyVersion),
           Texts(p.endpointAllowlist), Raw(p.rotationPolicy)])
  }

  function ProfileValue(p: Profile): Value {
    Items([ProfileRouteValue(p), ProfilePolicyValue(p)])
  }

  function ThreeValue(c: Option<Commitments>): Value {
    if c.None? then Absent
    else Present(Items([Raw(c.value.first), Raw(c.value.second), Raw(c.value.third)]))
  }

  function BootstrapHeadValue(b: Bootstrap): Value {
    Items([Unit, Num(b.schemaVersion), Raw(KindName(b.kind)), Raw(b.scopeCommitment), Raw(b.privacyLabel)])
  }

  function ProfilesValue(ps: seq<Profile>): Value {
    Items(seq(|ps|, i requires 0 <= i < |ps| => ProfileValue(ps[i])))
  }

  function BootstrapValue(b: Bootstrap): Value {
    Items([BootstrapHeadValue(b), ProfilesValue(b.profiles), ThreeValue(b.dm), ThreeValue(b.group)])
  }

  function AdmissionValue(a: AdmissionSnapshot): Value {
    Items([Raw(a.groupIdCommitment), Raw(a.groupCommitment), Raw(a.admissionMode), Num(a.policyEpoch),
           Raw(a.rolePolicyCommitment), Bit(a.welcomeRequired)])
  }

  function PasswordValue(p: PasswordPolicy): Value {
    Items([Bit(p.required), Raw(ProtocolName(p.protocol)), OptText(p.helperId), Raw(p.rateLimitCommitment),
           Bit(p.offlineVerifierAllowed)])
  }

  /** The two's-complement bits of an `i64`. */
  function Bits64(x: int): nat
    requires I64_MIN <= x <= I64_MAX
  {
    if x < 0 then x + U64 else x
  }

  /** The bits are the number modulo 2^64, so they fit a `u64`. */
  lemma Bits64Exact(x: int)
    requires I64_MIN <= x <= I64_MAX
    ensures Bits64(x) < U64 && (Bits64(x) == x || Bits64(x) == x + U64)
  {
  }

  function OptBootstrap(b: Option<Bootstrap>): Value {
    if b.None? then Absent else Present(BootstrapValue(b.value))
  }

  function OptAdmission(a: Option<AdmissionSnapshot>): Value {
    if a.None? then Absent else Present(AdmissionValue(a.value))
  }

  function OptPassword(p: Option<PasswordPolicy>): Value {
    if p.None? then Absent else Present(PasswordValue(p.value))
  }

  function SignalingValue(s: Signaling): Value {
    Items([Raw(s.endpoint), Raw(PolicyName(s.endpointPolicy)), Raw(s.fingerprint), Raw(s.trustStatus),
           IceValue(s.icePolicy)])
  }

  function RevocationValue(r: RevocationPolicy): Value {
    Items([Bit(r.revocable), Raw(r.authorityCommitment), Bit(r.expiryEnforced), Bit(r.maxUseEnforced)])
  }

  function InviteHeadValue(d: Descriptor): Value {
    Items([Unit, Raw(d.inviteId), Raw(d.roomSecretCommitment), Raw(d.issuerKey)])
  }

  function InviteValue(d: Descriptor): Value
    requires I64_MIN <= d.expiresMs <= I64_MAX
  {
    Items([InviteHeadValue(d), SignalingValue(d.signaling),
           OptBootstrap(d.bootstrap), OptAdmission(d.admission), RevocationValue(d.revocation),
           OptPassword(d.password), Num(Bits64(d.expiresMs)), Num(d.maxUses)])
  }

  /**
   Every length fits its `u64` prefix and every number its field: true of every value the Rust types hold,
   since a `Vec` never exceeds `isize::MAX` bytes.
   */
  predicate Encodable(d: Descriptor) {
    && I64_MIN <= d.expiresMs <= I64_MAX
    && Conforms(INVITE, InviteValue(d))
  }

  function SigningBytes(d: Descriptor): Bytes
    requires Encodable(d)
  {
    Encode(INVITE, InviteValue(d))
  }

  // ---- The values determine the records ----

  lemma TextsInjective(a: seq<Bytes>, b: seq<Bytes>)
    requires Texts(a) == Texts(b)
    ensures a == b
  {
    var va, vb := Texts(a).vs, Texts(b).vs;
    assert |a| == |va| == |vb| == |b|;
    forall i | 0 <= i < |a| ensures a[i] == b[i] {
      assert va[i] == Raw(a[i]) && vb[i] == Raw(b[i]);
    }
  }

  lemma TurnInjective(a: TurnServer, b: TurnServer)
    requires TurnValue(a) == TurnValue(b)
    ensures a == b
  {
    var va, vb := TurnValue(a).vs, TurnValue(b).vs;
    assert va[0] == vb[0] && va[1] == vb[1] && va[2] == vb[2] && va[3] == vb[3];
  }

  lemma IceInjective(a: IcePolicy, b: IcePolicy)
    requires IceValue(a) == IceValue(b)
    ensures a == b
  {
    var va, vb := IceValue(a).vs, IceValue(b).vs;
    assert va[1] == vb[1] && va[2] == vb[2];
    TextsInjective(a.stunServers, b.stunServers);
    assert |va[2].vs| == |vb[2].vs|;
    forall i | 0 <= i < |a.turnServers| ensures a.turnServers[i] == b.turnServers[i] {
      assert va[2].vs[i] == vb[2].vs[i];
      TurnInjective(a.turnServers[i], b.turnServers[i]);
    }
  }

  lemma ProfileInjective(a: Profile, b: Profile)
    requires ProfileValue(a) == ProfileValue(b)
    ensures a == b
  {
    assert ProfileValue(a).vs[0] == ProfileValue(b).vs[0] && ProfileValue(a).vs[1] == ProfileValue(b).vs[1];
    var va, vb := ProfileRouteValue(a).vs, ProfileRouteValue(b).vs;
    assert va[0] == vb[0] && va[1] == vb[1] && va[2] == vb[2] && va[3] == vb[3] && va[4] == vb[4] && va[5] == vb[5];
    NamesDiffer(ProductionTls, ProductionTls, GroupJoin, GroupJoin, a.adapterKind, b.adapterKind,
                OpaquePakeReserved, OpaquePakeReserved);
    TextsInjective(a.endpoints, b.endpoints);
    var wa, wb := ProfilePolicyValue(a).vs, ProfilePolicyValue(b).vs;
    assert wa[0] == wb[0] && wa[1] == wb[1] && wa[2] == wb[2] && wa[3] == wb[3] && wa[4] == wb[4] && wa[5] == wb[5];
    TextsInjective(a.capabilities, b.capabilities);
    TextsInjective(a.endpointAllowlist, b.endpointAllowlist);
  }

  lemma ThreeInjective(a: Option<Commitments>, b: Option<Commitments>)
    requires ThreeValue(a) == ThreeValue(b)
    ensures a == b
  {
    if a.Some? {
      var va, vb := ThreeValue(a).v.vs, ThreeValue(b).v.vs;
      assert va[0] == vb[0] && va[1] == vb[1] && va[2] == vb[2];
    }
  }

  lemma BootstrapInjective(a: Bootstrap, b: Bootstrap)
    requires BootstrapValue(a) == BootstrapValue(b)
    ensures a == b
  {
    var va, vb := BootstrapValue(a).vs, BootstrapValue(b).vs;
    assert va[0] == vb[0] && va[1] == vb[1] && va[2] == vb[2] && va[3] == vb[3];
    var ha, hb := va[0].vs, vb[0].vs;
    assert ha[1] == hb[1] && ha[2] == hb[2] && ha[3] == hb[3] && ha[4] == hb[4];
    NamesDiffer(ProductionTls, ProductionTls, a.kind, b.kind, Mqtt, Mqtt, OpaquePakeReserved, OpaquePakeReserved);
    ThreeInjective(a.dm, b.dm);
    ThreeInjective(a.group, b.group);
    assert |va[1].vs| == |vb[1].vs|;
    forall i | 0 <= i < |a.profiles| ensures a.profiles[i] == b.profiles[i] {
      assert va[1].vs[i] == vb[1].vs[i];
      ProfileInjective(a.profiles[i], b.profiles[i]);
    }
  }

  lemma AdmissionInjective(a: AdmissionSnapshot, b: AdmissionSnapshot)
    requires AdmissionValue(a) == AdmissionValue(b)
    ensures a == b
  {
    var va, vb := AdmissionValue(a).vs, AdmissionValue(b).vs;
    assert va[0] == vb[0] && va[1] == vb[1] && va[2] == vb[2] && va[3] == vb[3] && va[4] == vb[4] && va[5] == vb[5];
  }

  lemma PasswordInjective(a: PasswordPolicy, b: PasswordPolicy)
    requires PasswordValue(a) == PasswordValue(b)
    ensures a == b
  {
    var va, vb := PasswordValue(a).vs, PasswordValue(b).vs;
    assert va[0] == vb[0] && va[1] == vb[1] && va[2] == vb[2] && va[3] == vb[3] && va[4] == vb[4];
    NamesDiffer(ProductionTls, ProductionTls, GroupJoin, GroupJoin, Mqtt, Mqtt, a.protocol, b.protocol);
  }

  lemma SignalingInjective(a: Signaling, b: Signaling)
    requires SignalingValue(a) == SignalingValue(b)
    ensures a == b
  {
    var va, vb := SignalingValue(a).vs, SignalingValue(b).vs;
    assert va[0] == vb[0] && va[1] == vb[1] && va[2] == vb[2] && va[3] == vb[3] && va[4] == vb[4];
    NamesDiffer(a.endpointPolicy, b.endpointPolicy, GroupJoin, GroupJoin, Mqtt, Mqtt,
                OpaquePakeReserved, OpaquePakeReserved);
    IceInjective(a.icePolicy, b.icePolicy);
  }

  lemma InviteInjective(a: Descriptor, b: Descriptor)
    requires Encodable(a) && Encodable(b)
    requires InviteValue(a) == InviteValue(b)
    ensures a == b
  {
    var va, vb := InviteValue(a).vs, InviteValue(b).vs;
    assert va[0] == vb[0] && va[1] == vb[1] && va[2] == vb[2] && va[3] == vb[3];
    assert va[4] == vb[4] && va[5] == vb[5] && va[6] == vb[6] && va[7] == vb[7];
    var ha, hb := va[0].vs, vb[0].vs;
    assert ha[1] == hb[1] && ha[2] == hb[2] && ha[3] == hb[3];
    SignalingInjective(a.signaling, b.signaling);
    if a.bootstrap.Some? { BootstrapInjective(a.bootstrap.value, b.bootstrap.value); }
    if a.admission.Some? { AdmissionInjective(a.admission.value, b.admission.value); }
    if a.password.Some? { PasswordInjective(a.password.value, b.password.value); }
    var ra, rb := va[4].vs, vb[4].vs;
    assert ra[0] == rb[0] && ra[1] == rb[1] && ra[2] == rb[2] && ra[3] == rb[3];
  }

  /**
   Signing bytes can be read back in one way only, whatever follows them: the executable `Decode` returns the
   descriptor's value and the rest, and that value belongs to this descriptor alone.
   */
  lemma InviteUniqueReading(d: Descriptor, rest: Bytes, d': Descriptor, rest': Bytes)
    requires Encodable(d) && Encodable(d')
    ensures Decode(INVITE, SigningBytes(d) + rest) == Some((InviteValue(d), rest))
    ensures SigningBytes(d) + rest == SigningBytes(d') + rest' ==> d == d' && rest == rest'
  {
    DecodeEncode(INVITE, InviteValue(d), rest);
    if SigningBytes(d) + rest == SigningBytes(d') + rest' {
      UniqueReading(INVITE, InviteValue(d), rest, InviteValue(d'), rest');
      InviteInjective(d, d');
    }
  }

  // ---- Where the names are ----

  /** The bytes hold a length-prefixed text at a position. */
  predicate TextAt(bytes: Bytes, at: nat, text: string) {
    && at + 8 + |text| <= |bytes| && |text| < U64
    && bytes[at..at + 8] == Length(Little, |text|)
    && bytes[at + 8..at + 8 + |text|] == Ascii(text)
  }

  lemma TextInside(bytes: Bytes, pre: Bytes, text: string, post: Bytes)
    requires |text| < U64 && bytes == pre + (Length(Little, |text|) + Ascii(text)) + post
    ensures TextAt(bytes, |pre|, text)
  {
    var len := Length(Little, |text|);
    assert bytes[|pre|..|pre| + 8] == len;
    assert bytes[|pre| + 8..|pre| + 8 + |text|] == Ascii(text);
  }

  lemma SecondField(fields: seq<Schema>, vs: seq<Value>) returns (post: Bytes)
    requires ConformFields(fields, vs) && |fields| >= 2
    ensures Conforms(fields[0], vs[0]) && Conforms(fields[1], vs[1])
    ensures EncodeFields(fields, vs) == Encode(fields[0], vs[0]) + Encode(fields[1], vs[1]) + post
  {
    post := EncodeFields(fields[1..][1..], vs[1..][1..]);
  }

  lemma ThirdField(fields: seq<Schema>, vs: seq<Value>) returns (post: Bytes)
    requires ConformFields(fields, vs) && |fields| >= 3
    ensures Conforms(fields[0], vs[0]) && Conforms(fields[1], vs[1]) && Conforms(fields[2], vs[2])
    ensures EncodeFields(fields, vs)
            == Encode(fields[0], vs[0]) + Encode(fields[1], vs[1]) + Encode(fields[2], vs[2]) + post
  {
    post := SecondField(fields[1..], vs[1..]);
  }

  function PolicyText(p: EndpointPolicy): string {
    if p.ProductionTls? then "production_tls" else "local_dev_loopback"
  }

  /** The endpoint policy's name follows the endpoint. */
  lemma PolicyNamed(s: Signaling)
    requires Conforms(SIGNALING, SignalingValue(s))
    ensures TextAt(Encode(SIGNALING, SignalingValue(s)), 8 + |s.endpoint|, PolicyText(s.endpointPolicy))
  {
    var fs, vs := SIGNALING.fields, SignalingValue(s).vs;
    var post := SecondField(fs, vs);
    TextInside(EncodeFields(fs, vs), Encode(STR, vs[0]), PolicyText(s.endpointPolicy), post);
  }

  function AdapterText(a: AdapterKind): string {
    match a
    case Mqtt => "mqtt"
    case Nostr => "nostr"
    case IpfsPubsub => "ipfs_pubsub"
    case DiscryptQuicRendezvous => "discrypt_quic_rendezvous"
  }

  /** The adapter's name follows the profile id. */
  lemma AdapterNamed(p: Profile)
    requires Conforms(PROFILE_ROUTE, ProfileRouteValue(p))
    ensures TextAt(Encode(PROFILE_ROUTE, ProfileRouteValue(p)), 8 + |p.profileId|, AdapterText(p.adapterKind))
  {
    var fs, vs := PROFILE_ROUTE.fields, ProfileRouteValue(p).vs;
    var post := SecondField(fs, vs);
    TextInside(EncodeFields(fs, vs), Encode(STR, vs[0]), AdapterText(p.adapterKind), post);
  }

  function ProtocolText(p: PasswordProtocol): string {
    if p.OnlineAuthorizedHelper? then "online_authorized_helper" else "opaque_pake_reserved"
  }

  /** The password protocol's name follows the flag. */
  lemma ProtocolNamed(p: PasswordPolicy)
    requires Conforms(PASSWORD, PasswordValue(p))
    ensures TextAt(Encode(PASSWORD, PasswordValue(p)), 1, ProtocolText(p.protocol))
  {
    var fs, vs := PASSWORD.fields, PasswordValue(p).vs;
    var post := SecondField(fs, vs);
    TextInside(EncodeFields(fs, vs), Encode(Flag, vs[0]), ProtocolText(p.protocol), post);
  }

  function KindText(k: InviteKind): string {
    match k
    case GroupJoin => "group_join"
    case DmContact => "dm_contact"
    case DevicePairing => "device_pairing"
  }

  /** The invite kind's name follows the 25 bytes of the tag and the 4 of the schema version. */
  lemma KindNamed(b: Bootstrap)
    requires Conforms(BOOTSTRAP_HEAD, BootstrapHeadValue(b))
    ensures TextAt(Encode(BOOTSTRAP_HEAD, BootstrapHeadValue(b)), 29, KindText(b.kind))
  {
    var fs, vs := BOOTSTRAP_HEAD.fields, BootstrapHeadValue(b).vs;
    var post := ThirdField(fs, vs);
    var pre := Encode(fs[0], vs[0]) + Encode(U32LE, vs[1]);
    TextInside(EncodeFields(fs, vs), pre, KindText(b.kind), post);
  }
}
