/**
 Validation of the signaling metadata, its ICE policy and the revocation policy, and the defaults that an invite
 gets when its issuer names none (crates/admission/src/lib.rs and crates/transport/src/ice.rs).
 */
module InviteMetadata {
  import opened Prelude
  import opened InviteFormat
  import RetentionLabels

  datatype InviteError =
    | Expired | Revoked | Exhausted | NotFound | InvalidIssuerSignature
    | InvalidSignalingEndpoint | InvalidTrustMetadata | InvalidEndpointPolicy
    | OfflineVerifierRejected | PasswordRejected
    | HelperMismatch | HelperProofExpired | InvalidHelperProofSignature
    | WelcomeRequired | WelcomeExpired | WelcomeInviteMismatch | InvalidWelcomeAuthorization

  /** The result of an operation that returns `Result<(), InviteError>`; `None` is `Ok(())`. */
  type Outcome = Option<InviteError>

  // ---- White space in UTF-8 ----

  /** The UTF-8 bytes of a character with the property `White_Space`. */
  predicate IsSpace(e: Bytes) {
    || (|e| == 1 && (9 <= e[0] <= 13 || e[0] == 32))
    || (|e| == 2 && e[0] == 0xC2 && (e[1] == 0x85 || e[1] == 0xA0))
    || (|e| == 3 && e[0] == 0xE1 && e[1] == 0x9A && e[2] == 0x80)
    || (|e| == 3 && e[0] == 0xE2 && e[1] == 0x80
        && (0x80 <= e[2] <= 0x8A || e[2] == 0xA8 || e[2] == 0xA9 || e[2] == 0xAF))
    || (|e| == 3 && e[0] == 0xE2 && e[1] == 0x81 && e[2] == 0x9F)
    || (|e| == 3 && e[0] == 0xE3 && e[1] == 0x80 && e[2] == 0x80)
  }

  /** UTF-8 of a character of the basic multilingual plane. */
  function Utf8(c: char): Bytes
    requires c as int < 0x1_0000
  {
    var n := c as int;
    if n < 0x80 then [n]
    else if n < 0x800 then [0xC0 + n / 64, 0x80 + n % 64]
    else [0xE0 + n / 4096, 0x80 + n / 64 % 64, 0x80 + n % 64]
  }

  /** The character that one to three bytes stand for. */
  function Utf8Char(e: Bytes): int {
    if |e| == 1 then e[0]
    else if |e| == 2 then var (a: int, b: int) := (e[0], e[1]); (a - 0xC0) * 64 + (b - 0x80)
    else if |e| == 3 then
      var (a: int, b: int, c: int) := (e[0], e[1], e[2]); (a - 0xE0) * 4096 + (b - 0x80) * 64 + (c - 0x80)
    else 0
  }

  /** The spaces are the UTF-8 forms of the white space that `str::trim` knows. */
  lemma SpaceExact(e: Bytes)
    ensures IsSpace(e) <==> exists c: char | c as int < 0x1_0000 :: RetentionLabels.IsWhitespace(c) && e == Utf8(c)
  {
    if IsSpace(e) {
      var c := Utf8Char(e) as char;
      assert RetentionLabels.IsWhitespace(c) && e == Utf8(c);
    }
  }

  /** The width of the space at the start, or 0. */
  function LeadingSpace(t: Bytes): (w: nat)
    ensures w <= |t|
  {
    if |t| >= 1 && IsSpace(t[..1]) then 1
    else if |t| >= 2 && IsSpace(t[..2]) then 2
    else if |t| >= 3 && IsSpace(t[..3]) then 3
    else 0
  }

  /** The width of the space at the end, or 0. */
  function TrailingSpace(t: Bytes): (w: nat)
    ensures w <= |t|
  {
    if |t| >= 1 && IsSpace(t[|t| - 1..]) then 1
    else if |t| >= 2 && IsSpace(t[|t| - 2..]) then 2
    else if |t| >= 3 && IsSpace(t[|t| - 3..]) then 3
    else 0
  }

  function TrimStart(t: Bytes): Bytes {
    if LeadingSpace(t) > 0 then TrimStart(t[LeadingSpace(t)..]) else t
  }

  function TrimEnd(t: Bytes): Bytes {
    if TrailingSpace(t) > 0 then TrimEnd(t[..|t| - TrailingSpace(t)]) else t
  }

  /** `str::trim`. */
  function Trim(t: Bytes): Bytes {
    TrimEnd(TrimStart(t))
  }

  /** `chars().any(char::is_whitespace)`; no encoding of a character contains that of another. */
  predicate HasSpace(t: Bytes) {
    exists i, j | 0 <= i <= j <= |t| :: IsSpace(t[i..j])
  }

  lemma SpaceWidth(t: Bytes)
    ensures LeadingSpace(t) == 0 <==> forall w | 0 <= w <= |t| :: !IsSpace(t[..w])
    ensures TrailingSpace(t) == 0 <==> forall i | 0 <= i <= |t| :: !IsSpace(t[i..])
  {
    if TrailingSpace(t) == 0 {
      forall i | 0 <= i <= |t| ensures !IsSpace(t[i..]) {
        if |t| - i == 1 {
          assert i == |t| - 1;
        }
      }
    }
  }

  lemma LeadingWidth(e: Bytes, t: Bytes)
    requires IsSpace(e)
    ensures LeadingSpace(e + t) == |e|
  {
    assert (e + t)[..|e|] == e;
    assert forall w | 1 <= w < |e| :: (e + t)[..w][0] == e[0];
  }

  lemma TrailingWidth(t: Bytes, e: Bytes)
    requires IsSpace(e)
    ensures TrailingSpace(t + e) == |e|
  {
    var all := t + e;
    assert all[|all| - |e|..] == e && all[|all| - 1] == e[|e| - 1];
    if |e| >= 2 {
      assert all[|all| - 2] == e[|e| - 2];
    }
  }

  /** Trimming removes a space at either end, whatever is left. */
  lemma TrimDropsSpace(e: Bytes, t: Bytes)
    requires IsSpace(e)
    ensures TrimStart(e + t) == TrimStart(t) && TrimEnd(t + e) == TrimEnd(t)
  {
    LeadingWidth(e, t);
    TrailingWidth(t, e);
    assert (e + t)[|e|..] == t && (t + e)[..|t + e| - |e|] == t;
  }

  /** Trimming keeps everything that neither starts nor ends with a space. */
  lemma TrimKeepsRest(t: Bytes)
    requires forall i | 0 <= i <= |t| :: !IsSpace(t[..i]) && !IsSpace(t[i..])
    ensures Trim(t) == t
  {
    SpaceWidth(t);
  }

  /** A space starts with an ASCII space or with a byte above ASCII. */
  lemma SpaceStarts(e: Bytes)
    requires e != [] && 32 < e[0] < 127
    ensures !IsSpace(e)
  {
  }

  lemma NoLeadingSpace(t: Bytes)
    requires t != [] && 32 < t[0] < 127
    ensures LeadingSpace(t) == 0
  {
    forall w | 1 <= w <= |t| ensures !IsSpace(t[..w]) {
      SpaceStarts(t[..w]);
    }
  }

  /** The last three bytes are printable ASCII, as far as they exist. */
  predicate PrintableEnd(t: Bytes) {
    forall i | |t| - 3 <= i < |t| && 0 <= i :: 32 < t[i] < 127
  }

  lemma NoTrailingSpace(t: Bytes)
    requires PrintableEnd(t)
    ensures TrailingSpace(t) == 0
  {
    forall i | |t| - 3 <= i < |t| && 0 <= i ensures !IsSpace(t[i..]) {
      SpaceStarts(t[i..]);
    }
  }

  /** Text that starts and ends in printable ASCII is trimmed already. */
  lemma TrimKeeps(t: Bytes)
    requires t != [] && 32 < t[0] < 127 && PrintableEnd(t)
    ensures Trim(t) == t
  {
    NoLeadingSpace(t);
    NoTrailingSpace(t);
  }

  // ---- Hexadecimal fingerprints ----

  predicate IsHexDigit(b: byte) {
    '0' as int <= b <= '9' as int || 'a' as int <= b <= 'f' as int || 'A' as int <= b <= 'F' as int
  }

  predicate IsHexFingerprint(t: Bytes) {
    |t| == 64 && forall i | 0 <= i < |t| :: IsHexDigit(t[i])
  }

  function HexDigit(n: int): byte
    requires 0 <= n < 16
  {
    if n < 10 then '0' as int + n else 'a' as int + n - 10
  }

  /** `hex::encode`. */
  function Hex(b: Bytes): (t: Bytes)
    ensures |t| == 2 * |b|
  {
    if b == [] then [] else [HexDigit(b[0] / 16), HexDigit(b[0] % 16)] + Hex(b[1..])
  }

  lemma {:induction false} HexDigits(b: Bytes, i: nat)
    requires i < 2 * |b|
    ensures IsHexDigit(Hex(b)[i])
  {
    if i < 2 {
    } else {
      HexDigits(b[1..], i - 2);
    }
  }

  lemma {:induction false} HexOfDigitIs(b: Bytes, i: nat)
    requires i < 2 * |b|
    ensures exists n | 0 <= n < 16 :: HexDigit(n) == Hex(b)[i]
  {
    if i < 2 {
      assert HexDigit(if i == 0 then b[0] / 16 else b[0] % 16) == Hex(b)[i];
    } else {
      HexOfDigitIs(b[1..], i - 2);
      var n :| 0 <= n < 16 && HexDigit(n) == Hex(b[1..])[i - 2];
      assert HexDigit(n) == Hex(b)[i];
    }
  }

  /** The hexadecimal form of every digest is a fingerprint. */
  lemma HexOfDigest(d: Digest)
    ensures IsHexFingerprint(Hex(d))
  {
    forall i | 0 <= i < 64 ensures IsHexDigit(Hex(d)[i]) {
      HexDigits(d, i);
    }
  }

  /** ASCII lower case. */
  function LowerCase(t: Bytes): (r: Bytes)
    ensures |r| == |t|
    ensures forall i | 0 <= i < |t| :: r[i] == if 'A' as int <= t[i] <= 'Z' as int then t[i] + 32 else t[i]
  {
    seq(|t|, i requires 0 <= i < |t| => if 'A' as int <= t[i] <= 'Z' as int then t[i] + 32 else t[i])
  }

  lemma LowerHexDigit(b: byte)
    ensures IsHexDigit(b)
            <==> exists n | 0 <= n < 16 :: HexDigit(n) == if 'A' as int <= b <= 'Z' as int then b + 32 else b
  {
    if IsHexDigit(b) {
      var low := if 'A' as int <= b <= 'Z' as int then b + 32 else b;
      var n := if low <= '9' as int then low - '0' as int else low - 'a' as int + 10;
      assert HexDigit(n) == low;
    }
  }

  lemma HexCons(hi: int, lo: int, rest: Bytes)
    requires 0 <= hi < 16 && 0 <= lo < 16
    ensures Hex([hi * 16 + lo] + rest) == [HexDigit(hi), HexDigit(lo)] + Hex(rest)
  {
    var b := [hi * 16 + lo] + rest;
    assert b[1..] == rest && (hi * 16 + lo) / 16 == hi && (hi * 16 + lo) % 16 == lo;
  }

  lemma LowerCaseCons(t: Bytes)
    requires |t| >= 2
    ensures LowerCase(t) == [LowerCase(t)[0], LowerCase(t)[1]] + LowerCase(t[2..])
  {
    forall i | 2 <= i < |t| ensures LowerCase(t)[i] == LowerCase(t[2..])[i - 2] {
      assert t[i] == t[2..][i - 2];
    }
  }

  /** The bytes that hexadecimal digits of either case spell. */
  lemma {:induction false} Unhex(t: Bytes) returns (b: Bytes)
    requires |t| % 2 == 0 && forall i | 0 <= i < |t| :: IsHexDigit(t[i])
    ensures Hex(b) == LowerCase(t)
  {
    if t == [] {
      b := [];
    } else {
      LowerHexDigit(t[0]);
      LowerHexDigit(t[1]);
      var hi :| 0 <= hi < 16 && HexDigit(hi) == LowerCase(t)[0];
      var lo :| 0 <= lo < 16 && HexDigit(lo) == LowerCase(t)[1];
      var rest := Unhex(t[2..]);
      b := [hi * 16 + lo] + rest;
      HexCons(hi, lo, rest);
      LowerCaseCons(t);
    }
  }

  /** A fingerprint is the hexadecimal form of a digest in either case, and nothing else is. */
  lemma FingerprintExact(t: Bytes)
    ensures IsHexFingerprint(t) <==> exists d: Digest :: Hex(d) == LowerCase(t)
  {
    if IsHexFingerprint(t) {
      var d := Unhex(t);
      assert |d| == 32;
      var d': Digest := d;
      assert Hex(d') == LowerCase(t);
    }
    if d: Digest :| Hex(d) == LowerCase(t) {
      forall i | 0 <= i < |t| ensures IsHexDigit(t[i]) {
        HexOfDigitIs(d, i);
        LowerHexDigit(t[i]);
      }
    }
  }

  // ---- Validators ----

  predicate StartsWith(t: Bytes, prefix: string) {
    Ascii(prefix) <= t
  }

  /** `InviteEndpointPolicy::validates_endpoint`. */
  predicate ValidatesEndpoint(p: EndpointPolicy, endpoint: Bytes) {
    match p
    case ProductionTls =>
      || StartsWith(endpoint, "https://") || StartsWith(endpoint, "wss://")
      || StartsWith(endpoint, "mqtts://") || StartsWith(endpoint, "quic://")
    case LocalDevLoopback =>
      || StartsWith(endpoint, "http://127.0.0.1:") || StartsWith(endpoint, "ws://127.0.0.1:")
      || StartsWith(endpoint, "mqtt://127.0.0.1:") || StartsWith(endpoint, "http://[::1]:")
      || StartsWith(endpoint, "ws://[::1]:") || StartsWith(endpoint, "mqtt://[::1]:")
  }

  predicate PlainEndpoint(t: Bytes) {
    t != [] && Trim(t) == t && |t| <= 512 && !HasSpace(t)
  }

  predicate CredentialShape(s: TurnServer) {
    (s.username.None? && s.credential.None? && s.credentialExpiresAt.None?)
    || (s.username.Some? && s.credential.Some? && Trim(s.username.value) != [] && Trim(s.credential.value) != [])
  }

  /** `IceEndpointPolicy::validate(..).is_ok()`. */
  predicate IceValid(p: IcePolicy) {
    && (p.stunServers != [] || p.turnServers != [])
    && (forall e | e in p.stunServers :: PlainEndpoint(e) && (StartsWith(e, "stun:") || StartsWith(e, "stuns:")))
    && (forall s | s in p.turnServers ::
          && PlainEndpoint(s.endpoint) && (StartsWith(s.endpoint, "turn:") || StartsWith(s.endpoint, "turns:"))
          && CredentialShape(s))
  }

  /** `InviteSignalingMetadata::validate`. */
  function CheckSignaling(s: Signaling): Outcome {
    if Trim(s.endpoint) != s.endpoint || s.endpoint == [] || |s.endpoint| > 512 then Some(InvalidSignalingEndpoint)
    else if !ValidatesEndpoint(s.endpointPolicy, s.endpoint) then Some(InvalidSignalingEndpoint)
    else if !IsHexFingerprint(s.fingerprint) || Trim(s.trustStatus) == [] then Some(InvalidTrustMetadata)
    else if !IceValid(s.icePolicy) then Some(InvalidEndpointPolicy)
    else None
  }

  /** `InviteRevocationPolicy::validate`. */
  function CheckRevocation(r: RevocationPolicy): Outcome {
    if !r.revocable || !IsHexFingerprint(r.authorityCommitment) || !r.expiryEnforced || !r.maxUseEnforced
    then Some(InvalidEndpointPolicy)
    else None
  }

  /** The schemes an endpoint may start with. */
  function Schemes(p: EndpointPolicy): set<string> {
    if p.ProductionTls? then {"https://", "wss://", "mqtts://", "quic://"}
    else {"http://127.0.0.1:", "ws://127.0.0.1:", "mqtt://127.0.0.1:",
          "http://[::1]:", "ws://[::1]:", "mqtt://[::1]:"}
  }

  lemma EndpointSchemes(p: EndpointPolicy, endpoint: Bytes)
    ensures ValidatesEndpoint(p, endpoint) <==> exists scheme | scheme in Schemes(p) :: Ascii(scheme) <= endpoint
  {
  }

  /** Signaling metadata passes exactly if all of its parts do, and fails with the error of the first that does not. */
  lemma SignalingExact(s: Signaling)
    ensures var endpointOk := 1 <= |s.endpoint| <= 512 && Trim(s.endpoint) == s.endpoint
                              && exists scheme | scheme in Schemes(s.endpointPolicy) :: Ascii(scheme) <= s.endpoint;
            var trustOk := IsHexFingerprint(s.fingerprint) && Trim(s.trustStatus) != [];
            CheckSignaling(s) == if !endpointOk then Some(InvalidSignalingEndpoint)
                                 else if !trustOk then Some(InvalidTrustMetadata)
                                 else if !IceValid(s.icePolicy) then Some(InvalidEndpointPolicy)
                                 else None
  {
    EndpointSchemes(s.endpointPolicy, s.endpoint);
  }

  /** A revocation policy passes exactly if everything is enforced under an authority's fingerprint. */
  lemma RevocationExact(r: RevocationPolicy)
    ensures CheckRevocation(r) == None
            <==> exists authority | IsHexFingerprint(authority) :: r == RevocationPolicy(true, authority, true, true)
    ensures CheckRevocation(r) in {None, Some(InvalidEndpointPolicy)}
  {
    if CheckRevocation(r) == None {
      assert IsHexFingerprint(r.authorityCommitment);
    }
  }

  lemma NoInnerSpaceTrimmed(t: Bytes)
    requires !HasSpace(t)
    ensures Trim(t) == t
  {
    SpaceWidth(t);
    assert forall w | 0 <= w <= |t| :: t[..w] == t[0..w];
    assert forall i | 0 <= i <= |t| :: t[i..] == t[i..|t|];
  }

  /** An ICE endpoint passes exactly if it has 1 to 512 bytes and no white space. */
  lemma PlainEndpointExact(t: Bytes)
    ensures PlainEndpoint(t) <==> 1 <= |t| <= 512 && forall i, j | 0 <= i <= j <= |t| :: !IsSpace(t[i..j])
  {
    if !HasSpace(t) {
      NoInnerSpaceTrimmed(t);
    }
  }

  predicate StunOk(e: Bytes) {
    PlainEndpoint(e) && exists scheme | scheme in {"stun:", "stuns:"} :: Ascii(scheme) <= e
  }

  predicate TurnOk(s: TurnServer) {
    && PlainEndpoint(s.endpoint) && (exists scheme | scheme in {"turn:", "turns:"} :: Ascii(scheme) <= s.endpoint)
    && (s.credentialExpiresAt.Some? || s.username.Some? || s.credential.Some? ==>
          s.username.Some? && s.credential.Some? && Trim(s.username.value) != [] && Trim(s.credential.value) != [])
  }

  /** An ICE policy passes exactly if it names a server and each server passes on its own. */
  lemma IceExact(p: IcePolicy)
    ensures IceValid(p)
            <==> && |p.stunServers| + |p.turnServers| > 0
                 && (forall i | 0 <= i < |p.stunServers| :: StunOk(p.stunServers[i]))
                 && (forall i | 0 <= i < |p.turnServers| :: TurnOk(p.turnServers[i]))
  {
    forall e ensures StunOk(e) <==> PlainEndpoint(e) && (StartsWith(e, "stun:") || StartsWith(e, "stuns:")) {
    }
    forall s ensures TurnOk(s)
                     <==> PlainEndpoint(s.endpoint) && CredentialShape(s)
                          && (StartsWith(s.endpoint, "turn:") || StartsWith(s.endpoint, "turns:")) {
    }
  }

  lemma HexDigitExact(n: int)
    requires 0 <= n < 16
    ensures HexDigit(n) == Ascii("0123456789abcdef")[n]
  {
    var d := "0123456789abcdef";
    assert d[0] == '0' && d[1] == '1' && d[2] == '2' && d[3] == '3' && d[4] == '4' && d[5] == '5' && d[6] == '6';
    assert d[7] == '7' && d[8] == '8' && d[9] == '9' && d[10] == 'a' && d[11] == 'b' && d[12] == 'c';
  }

  /** `hex::encode` writes each byte as its two digits to base 16, in lower case. */
  lemma {:induction false} HexExact(b: Bytes, i: nat)
    requires i < |b|
    ensures Hex(b)[2 * i] == Ascii("0123456789abcdef")[b[i] / 16]
    ensures Hex(b)[2 * i + 1] == Ascii("0123456789abcdef")[b[i] % 16]
  {
    if i == 0 {
      HexDigitExact(b[0] / 16);
      HexDigitExact(b[0] % 16);
    } else {
      HexExact(b[1..], i - 1);
      assert Hex(b)[2 * i] == Hex(b[1..])[2 * (i - 1)];
      assert Hex(b)[2 * i + 1] == Hex(b[1..])[2 * (i - 1) + 1];
    }
  }

  // ---- Defaults ----

  const DEFAULT_ENDPOINT: Bytes := Ascii("mqtts://" + "broker.emqx.io:8883")
  const DEFAULT_TRUST: Bytes := Ascii("signed endpoint fingerprint; " + "verify before MLS Welcome")
  const DEFAULT_STUN: Bytes := Ascii("stun:" + "stun.l.google.com:19302")

  /** `InviteSignalingMetadata::default_production`, with the endpoint's fingerprint. */
  function DefaultSignaling(hash: Bytes -> Digest): Signaling {
    Signaling(DEFAULT_ENDPOINT, ProductionTls,
              Hex(hash(Ascii("external-signaling-endpoint-fingerprint-v1") + DEFAULT_ENDPOINT)), DEFAULT_TRUST,
              IcePolicy([DEFAULT_STUN], []))
  }

  /** `InviteRevocationPolicy::default_open`. */
  function DefaultRevocation(hash: Bytes -> Digest): RevocationPolicy {
    RevocationPolicy(true, Hex(hash(Ascii("discrypt-default-revocation-authority-v1"))), true, true)
  }

  predicate Printable(s: string) {
    forall i | 0 <= i < |s| :: 32 < s[i] as int < 127
  }

  lemma NoSpaceInside(t: Bytes)
    requires forall i | 0 <= i < |t| :: 32 < t[i] < 127
    ensures !HasSpace(t)
  {
    forall i, j | 0 <= i <= j <= |t| ensures !IsSpace(t[i..j]) {
      var e := t[i..j];
      assert e != [] ==> e[0] == t[i];
    }
  }

  /** Printable ASCII has no space in it and is trimmed. */
  lemma PrintableIsPlain(s: string)
    requires Printable(s) && 1 <= |s| <= 512
    ensures PlainEndpoint(Ascii(s))
  {
    var t := Ascii(s);
    forall i | 0 <= i < |t| ensures 32 < t[i] < 127 {
      assert 32 < s[i] as int < 127;
    }
    TrimKeeps(t);
    NoSpaceInside(t);
  }

  lemma DefaultIceValid()
    ensures IceValid(IcePolicy([DEFAULT_STUN], []))
  {
    var s := "stun:" + "stun.l.google.com:19302";
    PrintableIsPlain(s);
    assert Ascii("stun:") <= Ascii(s);
  }

  lemma DefaultEndpointValid()
    ensures PlainEndpoint(DEFAULT_ENDPOINT) && ValidatesEndpoint(ProductionTls, DEFAULT_ENDPOINT)
  {
    var s := "mqtts://" + "broker.emqx.io:8883";
    PrintableIsPlain(s);
    assert Ascii("mqtts://") <= Ascii(s);
  }

  lemma DefaultTrustValid()
    ensures Trim(DEFAULT_TRUST) != []
  {
    TrimKeeps(DEFAULT_TRUST);
  }

  /** Whatever the hash, the default metadata passes the validators. */
  lemma DefaultsValid(hash: Bytes -> Digest)
    ensures CheckSignaling(DefaultSignaling(hash)).None?
    ensures CheckRevocation(DefaultRevocation(hash)).None?
  {
    DefaultEndpointValid();
    DefaultTrustValid();
    DefaultIceValid();
    HexOfDigest(hash(Ascii("external-signaling-endpoint-fingerprint-v1") + DEFAULT_ENDPOINT));
    HexOfDigest(hash(Ascii("discrypt-default-revocation-authority-v1")));
  }
}
