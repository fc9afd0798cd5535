/**
 Membership proofs, the commitment to an epoch's members, and the oracle built from local MLS and governance
 state (crates/content-keys/src/lib.rs, `MembershipProof` and `from_local_mls_governance_state`).
 */
module LiveKeyProofs {
  import opened Prelude
  import opened Codec
  import opened Signatures
  import opened SignedMessages
  import opened LiveKey

  // ---- Proofs ----

  function Fields(p: Proof): MembershipFields {
    MembershipFields(p.requesterLeaf, p.epoch, p.groupId, p.groupCommitment, p.deviceKey)
  }

  lemma FieldsFit(p: Proof)
    ensures MembershipFits(Fields(p))
  {
    WidthOf8();
    var fs, vs := MEMBERSHIP.fields, MembershipValue(Fields(p)).vs;
    assert Conforms(fs[0], vs[0]) && Conforms(fs[1], vs[1]) && Conforms(fs[2], vs[2]);
    assert Conforms(fs[3], vs[3]) && Conforms(fs[4], vs[4]) && Conforms(fs[5], vs[5]);
    ConformsEach(fs, vs);
  }

  /** `membership_proof_transcript`. */
  function Transcript(p: Proof): Bytes {
    FieldsFit(p);
    MembershipBytes(Fields(p))
  }

  /** The transcript names its parts in this order. */
  lemma {:induction false} TranscriptLayout(p: Proof)
    ensures Pow256(8) == U64 && Pow256(4) == U32
    ensures Transcript(p)
            == Ascii("discrypt-live-key" + "-membership-proof-v1")
               + EncodeNat(Big, 4, p.requesterLeaf) + EncodeNat(Big, 8, p.epoch)
               + (Length(Big, |p.groupId|) + p.groupId) + p.groupCommitment + p.deviceKey
  {
    WidthOf8();
    FieldsFit(p);
    var fs, vs := MEMBERSHIP.fields, MembershipValue(Fields(p)).vs;
    var w := Stages(fs, vs);
    assert Conforms(fs[0], vs[0]) && Conforms(fs[1], vs[1]) && Conforms(fs[2], vs[2]);
    assert Conforms(fs[3], vs[3]) && Conforms(fs[4], vs[4]) && Conforms(fs[5], vs[5]);
  }

  /** Every check of `verify_signature`, in the order of its errors. */
  predicate SignatureOk(sch: Scheme, p: Proof, expectedCommitment: Digest) {
    p.groupCommitment == expectedCommitment && sch.Verifies(p.deviceKey, Transcript(p), p.signature)
  }

  // ---- The commitment to an epoch's members ----

  lemma {:induction false} LeastOf(s: set<Leaf>) returns (m: Leaf)
    requires s != {}
    ensures m in s && forall x | x in s :: m <= x
  {
    var some :| some in s;
    var below := set x | x in s && x < some;
    if below == {} {
      m := some;
      assert forall x | x in s :: x !in below;
    } else {
      m := LeastOf(below);
      assert forall x | x in s :: x in below || some <= x;
    }
  }

  lemma LeastExists(s: set<Leaf>)
    requires s != {}
    ensures exists m :: m in s && forall x | x in s :: m <= x
  {
    var m := LeastOf(s);
  }

  function Least(s: set<Leaf>): (m: Leaf)
    requires s != {}
    ensures m in s && forall x | x in s :: m <= x
  {
    LeastExists(s);
    var m :| m in s && forall x | x in s :: m <= x;
    m
  }

  /** A `BTreeSet` in iteration order. */
  function Ascending(s: set<Leaf>): (r: seq<Leaf>)
    ensures |r| == |s|
  {
    if s == {} then [] else [Least(s)] + Ascending(s - {Least(s)})
  }

  lemma {:induction false} AscendingMembers(s: set<Leaf>, x: Leaf)
    ensures x in Ascending(s) <==> x in s
  {
    if s == {} {
    } else {
      var m := Least(s);
      AscendingMembers(s - {m}, x);
      assert Ascending(s) == [m] + Ascending(s - {m});
    }
  }

  predicate Increasing(r: seq<Leaf>) {
    forall i, j | 0 <= i < j < |r| :: r[i] < r[j]
  }

  lemma PrependIncreasing(m: Leaf, rest: seq<Leaf>)
    requires Increasing(rest) && forall i | 0 <= i < |rest| :: m < rest[i]
    ensures Increasing([m] + rest)
  {
    var r := [m] + rest;
    forall i, j | 0 <= i < j < |r| ensures r[i] < r[j] {
      assert r[j] == rest[j - 1];
      assert i > 0 ==> r[i] == rest[i - 1];
    }
  }

  lemma {:induction false} AscendingIncreases(s: set<Leaf>)
    ensures Increasing(Ascending(s))
  {
    if s == {} {
    } else {
      var m := Least(s);
      var rest := Ascending(s - {m});
      AscendingIncreases(s - {m});
      forall i | 0 <= i < |rest| ensures m < rest[i] {
        AscendingMembers(s - {m}, rest[i]);
      }
      PrependIncreasing(m, rest);
    }
  }

  /** The iteration order lists exactly the members, in strictly ascending order. */
  lemma AscendingOrder(s: set<Leaf>)
    ensures (forall x :: x in Ascending(s) <==> x in s) && Increasing(Ascending(s))
  {
    AscendingIncreases(s);
    forall x ensures x in Ascending(s) <==> x in s {
      AscendingMembers(s, x);
    }
  }

  function LeavesValue(leaves: seq<Leaf>): Value {
    Items(seq(|leaves|, i requires 0 <= i < |leaves| => Num(leaves[i])))
  }

  function PreimageValue(epoch: Epoch, members: set<Leaf>): Value {
    Items([Unit, Num(epoch), LeavesValue(Ascending(members))])
  }

  /** A set of 32-bit leaves has fewer than 2^64 elements. */
  lemma {:induction false} LeavesBounded(s: set<Leaf>, bound: nat)
    requires forall x | x in s :: x < bound
    ensures |s| <= bound
  {
    if s == {} {
    } else {
      var x :| x in s;
      assert 0 <= x < bound;
      LeavesBounded(s - {bound - 1}, bound - 1);
    }
  }

  lemma PreimageFits(epoch: Epoch, members: set<Leaf>)
    ensures Conforms(COMMITMENT, PreimageValue(epoch, members))
  {
    WidthOf8();
    LeavesBounded(members, U32);
    var fs, vs := COMMITMENT.fields, PreimageValue(epoch, members).vs;
    ItemsConformEach(Nat(Big, 4), vs[2].vs);
    assert Conforms(fs[0], vs[0]) && Conforms(fs[1], vs[1]) && Conforms(fs[2], vs[2]);
    ConformsEach(fs, vs);
  }

  /** The bytes `derive_membership_group_commitment` hashes. */
  function Preimage(epoch: Epoch, members: set<Leaf>): Bytes {
    PreimageFits(epoch, members);
    Encode(COMMITMENT, PreimageValue(epoch, members))
  }

  const LEAVES: Schema := Many(Big, Nat(Big, 4))

  method LeavesBytes(leaves: seq<Leaf>) returns (bytes: Bytes)
    requires Conforms(LEAVES, LeavesValue(leaves))
    ensures bytes == Encode(LEAVES, LeavesValue(leaves))
  {
    WidthOf8();
    ghost var items := LeavesValue(leaves).vs;
    ghost var w := ItemStages(Nat(Big, 4), items);
    bytes := Length(Big, |leaves|);
    for i := 0 to |leaves|
      invariant bytes == Length(Big, |leaves|) + w[i]
    {
      assert items[i] == Num(leaves[i]) && Conforms(Nat(Big, 4), items[i]);
      bytes := bytes + EncodeNat(Big, 4, leaves[i]);
    }
  }

  /** `derive_membership_group_commitment` feeds the hash piece by piece. */
  method CommitmentBytes(epoch: Epoch, members: set<Leaf>) returns (bytes: Bytes)
    ensures bytes == Preimage(epoch, members)
  {
    PreimageFits(epoch, members);
    WidthOf8();
    ghost var fs, vs := COMMITMENT.fields, PreimageValue(epoch, members).vs;
    ghost var w := Stages(fs, vs);
    assert Conforms(fs[0], vs[0]) && Conforms(fs[1], vs[1]) && Conforms(fs[2], vs[2]);
    var leaves := LeavesBytes(Ascending(members));
    bytes := Ascii("discrypt-live-key" + "-epoch-group-commitment-v1");
    assert bytes == w[1];
    bytes := bytes + EncodeNat(Big, 8, epoch);
    assert bytes == w[2];
    bytes := bytes + leaves;
    assert bytes == w[3];
  }

  /** The hashed bytes determine the epoch and the member set. */
  lemma PreimageInjective(e: Epoch, m: set<Leaf>, e': Epoch, m': set<Leaf>)
    requires Preimage(e, m) == Preimage(e', m')
    ensures e == e' && m == m'
  {
    PreimageFits(e, m);
    PreimageFits(e', m');
    UniqueReading(COMMITMENT, PreimageValue(e, m), [], PreimageValue(e', m'), []);
    var v, v' := PreimageValue(e, m).vs, PreimageValue(e', m').vs;
    assert v[1] == v'[1] && v[2] == v'[2];
    var a, a' := Ascending(m), Ascending(m');
    assert |a| == |v[2].vs| == |v'[2].vs| == |a'|;
    forall i | 0 <= i < |a| ensures a[i] == a'[i] {
      assert v[2].vs[i] == Num(a[i]) && v'[2].vs[i] == Num(a'[i]);
    }
    assert a == a';
    AscendingOrder(m);
    AscendingOrder(m');
    forall x: Leaf ensures x in m <==> x in m' {
      assert x in a <==> x in m;
      assert x in a' <==> x in m';
    }
  }

  /** The transcript determines leaf, epoch, group id, commitment and key. */
  lemma TranscriptInjective(p: Proof, q: Proof)
    requires Transcript(p) == Transcript(q)
    ensures Fields(p) == Fields(q)
  {
    FieldsFit(p);
    FieldsFit(q);
    assert MembershipBytes(Fields(p)) + [] == MembershipBytes(Fields(q)) + [];
    MembershipUniqueReading(Fields(p), [], Fields(q), []);
  }

  /** Under ideal signatures, one signature under one device key vouches for one leaf, epoch, group and commitment. */
  lemma SignatureBindsProof(sch: Scheme, p: Proof, q: Proof, c: Digest, c': Digest)
    requires sch.Binding()
    requires SignatureOk(sch, p, c) && SignatureOk(sch, q, c')
    requires p.deviceKey == q.deviceKey && p.signature == q.signature
    ensures p == q && c == c'
  {
    assert Transcript(p) == Transcript(q);
    TranscriptInjective(p, q);
  }

  // ---- Building the oracle ----

  /** `LiveKeyOracle::new`: decoys by default, and a limit of at least one request. */
  function New(hash: Bytes -> Digest, members: map<Epoch, set<Leaf>>, maxRequests: nat): Oracle {
    Oracle(members, map e | e in members :: hash(Preimage(e, members[e])), map[], map[], Max(maxRequests, 1),
           seq(32, _ => 0xD), DecoyKey)
  }

  /** A new oracle has the given members, their commitments, no devices, no requests and the default decoy. */
  lemma NewExact(hash: Bytes -> Digest, members: map<Epoch, set<Leaf>>, maxRequests: nat)
    ensures var o := New(hash, members, maxRequests);
            && o.members == members && o.commitments.Keys == members.Keys
            && (forall e | e in members :: o.commitments[e] == hash(Preimage(e, members[e])))
            && o.deviceKeys == map[] && o.requests == map[] && o.maxRequests == Max(1, maxRequests)
            && |o.decoyKey| == 32 && (forall b | b in o.decoyKey :: b == 13) && o.mode == DecoyKey
  {
  }

  function VerifierOf(sch: Scheme): Verifier {
    (p: Proof, c: Digest) => SignatureOk(sch, p, c)
  }

  /**
   A proof is bound to one membership view: oracles that accept it agree on the members of its epoch, unless the
   hash of their two views collides.
   */
  lemma OneMembershipView(sch: Scheme, hash: Bytes -> Digest, o: Oracle, o': Oracle, p: Proof)
    requires o.commitments == New(hash, o.members, 1).commitments
    requires o'.commitments == New(hash, o'.members, 1).commitments
    requires Authorized(VerifierOf(sch), o, p) && Authorized(VerifierOf(sch), o', p)
    ensures var e := p.epoch;
            || o.members[e] == o'.members[e]
            || Collision(hash, Preimage(e, o.members[e]), Preimage(e, o'.members[e]))
  {
    var e := p.epoch;
    assert hash(Preimage(e, o.members[e])) == p.groupCommitment == hash(Preimage(e, o'.members[e]));
    if Preimage(e, o.members[e]) == Preimage(e, o'.members[e]) {
      PreimageInjective(e, o.members[e], e, o'.members[e]);
    }
  }

  datatype DeviceStatus = Active | Removed | Compromised

  datatype Member = Member(leaf: Leaf, status: DeviceStatus, deviceKey: Digest)

  /** `GroupState`; the members are listed in the order of their `BTreeMap`. */
  datatype Group = Group(epoch: Epoch, members: seq<Member>)

  /** `GovernanceState`, as far as the oracle reads it. */
  datatype Governance = Governance(epoch: Epoch, roleHolders: set<Leaf>, banned: set<Leaf>)

  datatype LocalError = EpochMismatch(groupEpoch: Epoch, governanceEpoch: Epoch) | InvalidDeviceKey(leaf: Leaf)

  predicate Ordered(members: seq<Member>) {
    forall i, j | 0 <= i < j < |members| :: members[i].leaf < members[j].leaf
  }

  predicate Eligible(governance: Governance, m: Member) {
    m.status.Active? && m.leaf in governance.roleHolders && m.leaf !in governance.banned
  }

  function ActiveLeaves(group: Group, governance: Governance): set<Leaf> {
    set m | m in group.members && Eligible(governance, m) :: m.leaf
  }

  /** The oracle after authorizing the devices of the first `n` members. */
  function Enrolled(o: Oracle, group: Group, governance: Governance, n: nat): Oracle
    requires n <= |group.members|
  {
    if n == 0 then o
    else
      var before, m := Enrolled(o, group, governance, n - 1), group.members[n - 1];
      if Eligible(governance, m) then Grant(before, group.epoch, m.leaf, m.deviceKey) else before
  }

  function LocalOracle(hash: Bytes -> Digest, group: Group, governance: Governance, maxRequests: nat): Oracle {
    var members := map[group.epoch := ActiveLeaves(group, governance)];
    Enrolled(New(hash, members, maxRequests), group, governance, |group.members|)
  }

  /** The eligible ones among the first `n` members have well-formed verifier keys. */
  predicate KeysParse(sch: Scheme, group: Group, governance: Governance, n: nat)
    requires n <= |group.members|
  {
    forall j | 0 <= j < n :: Eligible(governance, group.members[j]) ==> sch.keyParses(group.members[j].deviceKey)
  }

  /** Member `j` is the first eligible one whose key is malformed. */
  ghost predicate FirstMalformed(sch: Scheme, group: Group, governance: Governance, j: nat, leaf: Leaf) {
    && j < |group.members|
    && group.members[j].leaf == leaf
    && KeysParse(sch, group, governance, j)
    && !KeysParse(sch, group, governance, j + 1)
  }

  lemma ActiveIffEligible(group: Group, governance: Governance, i: nat)
    requires Ordered(group.members) && i < |group.members|
    ensures group.members[i].leaf in ActiveLeaves(group, governance) <==> Eligible(governance, group.members[i])
  {
    var leaf := group.members[i].leaf;
    if leaf in ActiveLeaves(group, governance) {
      var m :| m in group.members && Eligible(governance, m) && m.leaf == leaf;
      var j :| 0 <= j < |group.members| && group.members[j] == m;
      assert i == j;
    }
  }

  /** `from_local_mls_governance_state`: the first eligible member with a malformed key aborts the construction. */
  method FromLocalState(sch: Scheme, hash: Bytes -> Digest, group: Group, governance: Governance, maxRequests: nat)
    returns (r: Result<LiveKeyOracle, LocalError>)
    requires Ordered(group.members)
    ensures group.epoch != governance.epoch ==> r == Failure(EpochMismatch(group.epoch, governance.epoch))
    ensures r.Success? ==>
              && fresh(r.value)
              && r.value.verify == VerifierOf(sch)
              && r.value.State() == LocalOracle(hash, group, governance, maxRequests)
              && KeysParse(sch, group, governance, |group.members|)
    ensures group.epoch == governance.epoch && r.Failure? ==>
              r.error.InvalidDeviceKey? && exists j :: FirstMalformed(sch, group, governance, j, r.error.leaf)
  {
    if group.epoch != governance.epoch {
      return Failure(EpochMismatch(group.epoch, governance.epoch));
    }
    var members := map[group.epoch := ActiveLeaves(group, governance)];
    ghost var o := New(hash, members, maxRequests);
    var oracle := new LiveKeyOracle(VerifierOf(sch), New(hash, members, maxRequests));
    for i := 0 to |group.members|
      invariant oracle.State() == Enrolled(o, group, governance, i)
      invariant oracle.members == members
      invariant KeysParse(sch, group, governance, i)
    {
      var m := group.members[i];
      ActiveIffEligible(group, governance, i);
      if m.leaf in oracle.members[group.epoch] {
        if !sch.keyParses(m.deviceKey) {
          assert FirstMalformed(sch, group, governance, i, m.leaf);
          return Failure(InvalidDeviceKey(m.leaf));
        }
        var _ := oracle.AuthorizeMemberDevice(group.epoch, m.leaf, m.deviceKey);
      }
    }
    r := Success(oracle);
  }

  /** Authorizing the devices in turn registers, for each eligible member, that member's own key alone. */
  lemma {:induction false} EnrolledKeys(o: Oracle, group: Group, governance: Governance, n: nat, leaf: Leaf)
    requires n <= |group.members| && Ordered(group.members)
    requires o.deviceKeys == map[] && o.members == map[group.epoch := ActiveLeaves(group, governance)]
    ensures var e := Enrolled(o, group, governance, n);
            && e == o.(deviceKeys := e.deviceKeys)
            && (forall epoch | (epoch, leaf) in e.deviceKeys :: epoch == group.epoch)
            && ((group.epoch, leaf) in e.deviceKeys <==>
                exists j | 0 <= j < n :: Eligible(governance, group.members[j]) && group.members[j].leaf == leaf)
            && forall j | 0 <= j < n && Eligible(governance, group.members[j]) && group.members[j].leaf == leaf ::
                 e.deviceKeys[(group.epoch, leaf)] == {group.members[j].deviceKey}
  {
    if n == 0 {
    } else {
      EnrolledKeys(o, group, governance, n - 1, leaf);
    }
  }

  /** The oracle's members are the active role holders that are not banned. */
  lemma ActiveLeavesExact(group: Group, governance: Governance, leaf: Leaf)
    ensures leaf in ActiveLeaves(group, governance)
            <==> && leaf in governance.roleHolders && leaf !in governance.banned
                 && exists m | m in group.members :: m.leaf == leaf && m.status == Active
  {
  }

  /**
   The proof was signed, over this oracle's commitment, with the device key of an active member that has a role and
   is not banned.
   */
  ghost predicate SignedByMember(sch: Scheme, hash: Bytes -> Digest, group: Group, governance: Governance, p: Proof) {
    && p.epoch == group.epoch
    && SignatureOk(sch, p, hash(Preimage(group.epoch, ActiveLeaves(group, governance))))
    && p.requesterLeaf in governance.roleHolders && p.requesterLeaf !in governance.banned
    && exists j | 0 <= j < |group.members| ::
         && group.members[j].status == Active
         && group.members[j].leaf == p.requesterLeaf
         && group.members[j].deviceKey == p.deviceKey
  }

  /** The locally built oracle accepts a proof exactly when an eligible member's own device signed it. */
  lemma LocalOracleExact(sch: Scheme, hash: Bytes -> Digest, group: Group, governance: Governance, max: nat, p: Proof)
    requires Ordered(group.members)
    ensures Authorized(VerifierOf(sch), LocalOracle(hash, group, governance, max), p)
            <==> SignedByMember(sch, hash, group, governance, p)
  {
    var o := New(hash, map[group.epoch := ActiveLeaves(group, governance)], max);
    EnrolledKeys(o, group, governance, |group.members|, p.requesterLeaf);
    if exists j | 0 <= j < |group.members| ::
        Eligible(governance, group.members[j]) && group.members[j].leaf == p.requesterLeaf {
      var j :| 0 <= j < |group.members| &&
               Eligible(governance, group.members[j]) && group.members[j].leaf == p.requesterLeaf;
      assert group.members[j] in group.members;
      assert p.requesterLeaf in ActiveLeaves(group, governance);
    }
  }

  lemma {:induction false} NoGrants(o: Oracle, es: seq<Event>)
    requires forall e | e in es :: e.Ask?
    ensures Granted(o, es) == o
  {
    if es == [] {
    } else {
      assert es[|es| - 1] in es;
      NoGrants(o, es[..|es| - 1]);
    }
  }

  /**
   Over every run of requests on a locally built oracle, the key goes out only to an active, unbanned role holder
   whose own device signed the proof, and to the first `max_requests` such requests of one leaf, epoch, author and
   network.
   */
  lemma LocalRunsExact(sch: Scheme, hash: Bytes -> Digest, group: Group, governance: Governance, max: nat,
                       es: seq<Event>, i: nat)
    requires Ordered(group.members) && max <= USIZE_MAX
    requires forall e | e in es :: e.Ask?
    requires i < |es|
    ensures var o := LocalOracle(hash, group, governance, max);
            Answer(VerifierOf(sch), o, es, i).authorized
            <==> SignedByMember(sch, hash, group, governance, es[i].proof)
                 && (UsesLike(VerifierOf(sch), o, es[..i], es[i]) < Max(max, 1) || max == USIZE_MAX)
  {
    var o := LocalOracle(hash, group, governance, max);
    EnrolledKeys(New(hash, map[group.epoch := ActiveLeaves(group, governance)], max), group, governance,
                 |group.members|, 0);
    ExactQuota(VerifierOf(sch), o, es, i);
    NoGrants(o, es[..i]);
    LocalOracleExact(sch, hash, group, governance, max, es[i].proof);
  }
}
