/**
 Who offers and who answers in a group's peer mesh (apps/ui/src/main.tsx, `runtimeRoleForGroupEdge` and the group
 branch of `textRuntimePeerEdges`).
 */
module Mesh {
  import opened Prelude

  /** A JavaScript string: UTF-16 code units, compared unit by unit. */
  type Unit16 = x: int | 0 <= x < 0x1_0000
  type JsString = seq<Unit16>

  datatype EdgeRole = Offerer | Answerer

  datatype Edge = Edge(local: JsString, remote: JsString, role: EdgeRole)

  datatype GroupRole = Owner | Staff | Plain

  /** A roster entry; `current` is whether its presence lease has not expired. */
  datatype Member = Member(memberId: JsString, peerId: Option<JsString>, role: GroupRole, online: bool, current: bool)

  /** What one device sees: the roster, its user, its backend peer id and the group's role label. */
  datatype View = View(members: seq<Member>, userId: Option<JsString>,
                       backendPeer: Option<JsString>, groupRole: GroupRole)

  predicate Less(a: JsString, b: JsString) {
    if b == [] then false
    else if a == [] then true
    else if a[0] != b[0] then a[0] < b[0]
    else Less(a[1..], b[1..])
  }

  /** Of two different strings exactly one is less than the other. */
  lemma {:induction false} LessIsTotal(a: JsString, b: JsString)
    requires a != b
    ensures Less(a, b) != Less(b, a)
  {
    if a == [] || b == [] || a[0] != b[0] {
    } else {
      assert a[1..] != b[1..] by {
        assert a == [a[0]] + a[1..] && b == [b[0]] + b[1..];
      }
      LessIsTotal(a[1..], b[1..]);
    }
  }

  /** The order is that of a dictionary: a proper prefix comes first, else the first different unit decides. */
  lemma {:induction false} LessExact(a: JsString, b: JsString)
    ensures Less(a, b)
            <==> || (a <= b && |a| < |b|)
                 || exists i | 0 <= i < |a| && i < |b| :: a[..i] == b[..i] && a[i] < b[i]
  {
    if a == [] || b == [] {
    } else if a[0] != b[0] {
      assert a[..0] == b[..0];
      assert forall i | 0 < i < |a| && i < |b| :: a[..i][0] != b[..i][0];
    } else {
      LessExact(a[1..], b[1..]);
      assert a == [a[0]] + a[1..] && b == [b[0]] + b[1..];
      if i :| 0 <= i < |a[1..]| && i < |b[1..]| && a[1..][..i] == b[1..][..i] && a[1..][i] < b[1..][i] {
        assert a[..i + 1] == [a[0]] + a[1..][..i] && b[..i + 1] == [b[0]] + b[1..][..i];
      }
      if i :| 0 <= i < |a| && i < |b| && a[..i] == b[..i] && a[i] < b[i] {
        assert a[1..][..i - 1] == a[..i][1..] && b[1..][..i - 1] == b[..i][1..];
        assert a[1..][i - 1] < b[1..][i - 1];
      }
    }
  }

  predicate CanManage(role: GroupRole) {
    role.Owner? || role.Staff?
  }

  /** `runtimeRoleForGroupEdge`. */
  function RoleFor(local: JsString, localRole: GroupRole, remote: JsString, remoteRole: GroupRole): EdgeRole {
    if CanManage(localRole) && !CanManage(remoteRole) then Offerer
    else if !CanManage(localRole) && CanManage(remoteRole) then Answerer
    else if Less(local, remote) then Offerer
    else Answerer
  }

  /** Owners and staff offer to the others; among equals the smaller peer id offers. */
  lemma RoleExact(local: JsString, localRole: GroupRole, remote: JsString, remoteRole: GroupRole)
    ensures RoleFor(local, localRole, remote, remoteRole) == Offerer
            <==> || (localRole in {Owner, Staff} && remoteRole == Plain)
                 || ((localRole == Plain <==> remoteRole == Plain) && Less(local, remote))
  {
  }

  /** Seen from both ends, an edge has one offerer and one answerer. */
  lemma RolesOppose(a: JsString, roleA: GroupRole, b: JsString, roleB: GroupRole)
    requires a != b
    ensures RoleFor(a, roleA, b, roleB) != RoleFor(b, roleB, a, roleA)
  {
    LessIsTotal(a, b);
  }

  /** The first roster entry of the local user. */
  function LocalMember(members: seq<Member>, userId: Option<JsString>): Option<Member> {
    if members == [] then None
    else if userId == Some(members[0].memberId) then Some(members[0])
    else LocalMember(members[1..], userId)
  }

  /** A string that JavaScript takes for true. */
  predicate Truthy(s: Option<JsString>) {
    s.Some? && s.value != []
  }

  function LocalPeer(v: View): JsString {
    var m := LocalMember(v.members, v.userId);
    if m.Some? && Truthy(m.value.peerId) then m.value.peerId.value
    else if Truthy(v.backendPeer) then v.backendPeer.value
    else []
  }

  function LocalRole(v: View): GroupRole {
    var m := LocalMember(v.members, v.userId);
    if m.Some? then m.value.role else v.groupRole
  }

  predicate IsFirst(members: seq<Member>, id: JsString, i: nat) {
    && i < |members| && members[i].memberId == id
    && forall j | 0 <= j < i :: members[j].memberId != id
  }

  lemma {:induction false} LocalMemberExact(members: seq<Member>, userId: Option<JsString>)
    ensures match LocalMember(members, userId)
            case None => forall i | 0 <= i < |members| :: userId != Some(members[i].memberId)
            case Some(m) => userId.Some? && exists i: nat :: IsFirst(members, userId.value, i) && members[i] == m
  {
    if members == [] {
    } else if userId == Some(members[0].memberId) {
      assert IsFirst(members, userId.value, 0);
    } else {
      LocalMemberExact(members[1..], userId);
      if LocalMember(members[1..], userId).Some? {
        var m := LocalMember(members[1..], userId).value;
        var i: nat :| IsFirst(members[1..], userId.value, i) && members[1..][i] == m;
        assert forall j | 0 < j <= i :: members[j].memberId == members[1..][j - 1].memberId;
        assert IsFirst(members, userId.value, i + 1);
      }
    }
  }

  /** The local peer id is the user's own, or else the backend's, or else empty. */
  lemma LocalPeerExact(v: View)
    ensures match LocalMember(v.members, v.userId)
            case Some(Member(_, Some(id), _, _, _)) => id != [] ==> LocalPeer(v) == id
            case _ => true
    ensures var m := LocalMember(v.members, v.userId);
            m.None? || m.value.peerId in {None, Some([])} ==>
              LocalPeer(v) == if v.backendPeer.Some? then v.backendPeer.value else []
  {
  }

  predicate Reachable(v: View, m: Member) {
    v.userId != Some(m.memberId) && m.online && m.current && Truthy(m.peerId)
  }

  predicate Listed(edges: seq<Edge>, remote: JsString) {
    exists i | 0 <= i < |edges| :: edges[i].remote == remote
  }

  /** Whether a roster entry gets an edge of its own, given the edges so far. */
  predicate Joins(v: View, edges: seq<Edge>, m: Member) {
    Reachable(v, m) && m.peerId.value != LocalPeer(v) && !Listed(edges, m.peerId.value)
  }

  function EdgeTo(v: View, m: Member): Edge
    requires m.peerId.Some?
  {
    Edge(LocalPeer(v), m.peerId.value, RoleFor(LocalPeer(v), LocalRole(v), m.peerId.value, m.role))
  }

  /** The edges contributed by the first `n` roster entries: one per remote peer, to its first reachable entry. */
  function EdgesUpTo(v: View, n: nat): seq<Edge>
    requires n <= |v.members|
  {
    if n == 0 then []
    else if Joins(v, EdgesUpTo(v, n - 1), v.members[n - 1])
    then EdgesUpTo(v, n - 1) + [EdgeTo(v, v.members[n - 1])]
    else EdgesUpTo(v, n - 1)
  }

  function Edges(v: View): seq<Edge> {
    if LocalPeer(v) == [] then [] else EdgesUpTo(v, |v.members|)
  }

  lemma ListedMore(edges: seq<Edge>, e: Edge)
    ensures forall r :: Listed(edges + [e], r) <==> Listed(edges, r) || r == e.remote
  {
    forall r ensures Listed(edges + [e], r) <==> Listed(edges, r) || r == e.remote {
      if Listed(edges, r) {
        var i :| 0 <= i < |edges| && edges[i].remote == r;
        assert (edges + [e])[i].remote == r;
      }
      assert (edges + [e])[|edges|].remote == e.remote;
    }
  }

  /** The group branch of `textRuntimePeerEdges`. */
  method TextRuntimePeerEdges(v: View) returns (edges: seq<Edge>)
    ensures edges == Edges(v)
  {
    var local := LocalPeer(v);
    if local == [] {
      return [];
    }
    var seen: set<JsString> := {};
    edges := [];
    for i := 0 to |v.members|
      invariant edges == EdgesUpTo(v, i)
      invariant forall r :: r in seen <==> Listed(edges, r)
    {
      var m := v.members[i];
      if Reachable(v, m) {
        var remote := m.peerId.value;
        if remote != local && remote !in seen {
          seen := seen + {remote};
          ListedMore(edges, EdgeTo(v, m));
          edges := edges + [EdgeTo(v, m)];
        }
      }
    }
  }

  /** Every edge starts at the local peer and leads elsewhere, and no two lead to the same peer. */
  predicate Simple(edges: seq<Edge>, local: JsString) {
    && (forall i | 0 <= i < |edges| :: edges[i].local == local && edges[i].remote != local)
    && forall i, j | 0 <= i < j < |edges| :: edges[i].remote != edges[j].remote
  }

  /** Whatever the roster, no edge leads back to the local peer and no remote peer is listed twice. */
  lemma {:induction false} EdgesSimple(v: View, n: nat)
    requires n <= |v.members|
    ensures Simple(EdgesUpTo(v, n), LocalPeer(v))
  {
    if n == 0 {
    } else {
      EdgesSimple(v, n - 1);
    }
  }

  /** Whatever the roster, the peers with an edge are exactly the reachable ones other than the local peer. */
  lemma {:induction false} EdgesCover(v: View, n: nat, remote: JsString)
    requires n <= |v.members|
    ensures Listed(EdgesUpTo(v, n), remote)
            <==> remote != LocalPeer(v)
                 && exists j | 0 <= j < n :: Reachable(v, v.members[j]) && v.members[j].peerId == Some(remote)
  {
    if n == 0 {
    } else {
      EdgesCover(v, n - 1, remote);
      if Joins(v, EdgesUpTo(v, n - 1), v.members[n - 1]) {
        ListedMore(EdgesUpTo(v, n - 1), EdgeTo(v, v.members[n - 1]));
      }
    }
  }

  predicate Present(m: Member) {
    m.online && m.current
  }

  predicate Offers(v: View, m: Member, remote: JsString) {
    Present(m) && v.userId != Some(m.memberId) && m.peerId == Some(remote) && remote != []
  }

  /** Roster entry `j` is the first present one of another user with this peer id. */
  predicate FirstWith(v: View, j: nat, remote: JsString) {
    && j < |v.members| && Offers(v, v.members[j], remote)
    && forall k | 0 <= k < j :: !Offers(v, v.members[k], remote)
  }

  lemma {:induction false} EdgesUpToExact(v: View, n: nat, e: Edge)
    requires n <= |v.members|
    ensures e in EdgesUpTo(v, n)
            <==> && e.remote != LocalPeer(v)
                 && exists j | 0 <= j < n :: FirstWith(v, j, e.remote) && e == EdgeTo(v, v.members[j])
  {
    if n == 0 {
    } else {
      EdgesUpToExact(v, n - 1, e);
      var m := v.members[n - 1];
      if m.peerId.Some? {
        EdgesCover(v, n - 1, m.peerId.value);
      }
      if Joins(v, EdgesUpTo(v, n - 1), m) {
        assert FirstWith(v, n - 1, m.peerId.value) by {
          assert forall k | 0 <= k < n - 1 :: Offers(v, v.members[k], m.peerId.value) ==> Reachable(v, v.members[k]);
        }
      }
    }
  }

  /**
   Whatever the roster: a view with a local peer id has exactly one kind of edge, from that peer to each other peer id
   of a present member, with the roles of its first entry; a view without one has no edges.
   */
  lemma EdgesExact(v: View, e: Edge)
    ensures e in Edges(v)
            <==> && LocalPeer(v) != [] && e.local == LocalPeer(v) && e.remote != e.local
                 && exists j | 0 <= j < |v.members| ::
                      && FirstWith(v, j, e.remote)
                      && e.role == RoleFor(e.local, LocalRole(v), e.remote, v.members[j].role)
  {
    EdgesUpToExact(v, |v.members|, e);
  }

  // ---- Members that share a roster ----

  /** Distinct member ids; the members that are present have distinct, non-empty peer ids. */
  predicate ProperRoster(members: seq<Member>) {
    && (forall i, j | 0 <= i < j < |members| :: members[i].memberId != members[j].memberId)
    && (forall i | 0 <= i < |members| && Present(members[i]) :: members[i].peerId !in {None, Some([])})
    && forall i, j | 0 <= i < j < |members| && Present(members[i]) && Present(members[j]) ::
         members[i].peerId != members[j].peerId
  }

  lemma {:induction false} FindsItself(members: seq<Member>, i: nat)
    requires i < |members|
    requires forall j, k | 0 <= j < k < |members| :: members[j].memberId != members[k].memberId
    ensures LocalMember(members, Some(members[i].memberId)) == Some(members[i])
  {
    if i == 0 {
    } else {
      FindsItself(members[1..], i - 1);
    }
  }

  /** On a proper roster a present member `i` has the edge to every other present member `j`. */
  lemma {:induction false} EdgePresent(v: View, i: nat, j: nat, n: nat)
    requires ProperRoster(v.members) && i < |v.members| && v.userId == Some(v.members[i].memberId)
    requires j != i && j < n <= |v.members| && Present(v.members[i]) && Present(v.members[j])
    ensures EdgeTo(v, v.members[j]) in EdgesUpTo(v, n)
  {
    FindsItself(v.members, i);
    var m := v.members[j];
    if j == n - 1 {
      EdgesCover(v, j, m.peerId.value);
    } else {
      EdgePresent(v, i, j, n - 1);
    }
  }

  /**
   Two present members of one proper roster: each lists exactly one edge to the other, and exactly one of the two
   offers, whatever backend peer ids and group labels the two devices hold. A member that can manage the group
   offers to one that cannot.
   */
  lemma OneOffererPerPair(v: View, w: View, i: nat, j: nat)
    requires ProperRoster(v.members) && w.members == v.members
    requires i < |v.members| && j < |v.members| && i != j
    requires v.userId == Some(v.members[i].memberId) && w.userId == Some(v.members[j].memberId)
    requires Present(v.members[i]) && Present(v.members[j])
    ensures Simple(Edges(v), LocalPeer(v)) && Simple(Edges(w), LocalPeer(w))
    ensures var a, b := v.members[i], v.members[j];
            exists role, other | role != other ::
              && Edge(a.peerId.value, b.peerId.value, role) in Edges(v)
              && Edge(b.peerId.value, a.peerId.value, other) in Edges(w)
              && (a.role != Plain && b.role == Plain ==> role == Offerer)
              && (b.role != Plain && a.role == Plain ==> other == Offerer)
  {
    var a, b := v.members[i], v.members[j];
    FindsItself(v.members, i);
    FindsItself(v.members, j);
    EdgesSimple(v, |v.members|);
    EdgesSimple(w, |v.members|);
    EdgePresent(v, i, j, |v.members|);
    EdgePresent(w, j, i, |v.members|);
    RolesOppose(a.peerId.value, a.role, b.peerId.value, b.role);
    assert EdgeTo(v, b).role != EdgeTo(w, a).role;
  }
}
