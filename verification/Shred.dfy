/**
 Cooperative shredding across a user's own devices: a grow-only tombstone set that online devices follow and
 offline devices catch up with (crates/content-keys/src/lib.rs, `Tombstones` and `CrossDeviceShredState`).
 */
module Shred {
  import opened Prelude

  type Id = Text

  datatype Device = Device(online: bool, seen: set<Id>)

  datatype State = State(global: set<Id>, devices: map<Id, Device>)

  datatype Event =
    | Register(device: Id, online: bool)
    | Tombstone(message: Id)
    | Merge(messages: seq<Id>)
    | SetOnline(device: Id, online: bool)

  const EMPTY: State := State({}, map[])

  function Elements(ids: seq<Id>): set<Id> {
    set id | id in ids
  }

  /** Online devices learn `ids`; offline ones are untouched. */
  function Synced(devices: map<Id, Device>, ids: set<Id>): map<Id, Device> {
    map d | d in devices ::
      if devices[d].online then Device(true, devices[d].seen + ids) else devices[d]
  }

  function Step(s: State, e: Event): State {
    match e
    case Register(d, online) =>
      s.(devices := s.devices[d := Device(online, if online then s.global else {})])
    case Tombstone(m) =>
      State(s.global + {m}, Synced(s.devices, {m}))
    case Merge(ms) =>
      var global := s.global + Elements(ms);
      State(global, Synced(s.devices, global))
    case SetOnline(d, online) =>
      if d !in s.devices then s
      else
        var seen := s.devices[d].seen;
        s.(devices := s.devices[d := Device(online, if online then seen + s.global else seen)])
  }

  function After(es: seq<Event>): State {
    if es == [] then EMPTY else Step(After(es[..|es| - 1]), es[|es| - 1])
  }

  predicate PendingOn(s: State, d: Id, m: Id) {
    d in s.devices && m in s.global && m !in s.devices[d].seen
  }

  predicate MayServe(s: State, d: Id, m: Id) {
    d in s.devices && m !in s.devices[d].seen
  }

  // ---- Every reachable state ----

  ghost predicate Consistent(s: State) {
    forall d | d in s.devices ::
      s.devices[d].seen <= s.global && (s.devices[d].online ==> s.devices[d].seen == s.global)
  }

  lemma {:induction false} AlwaysConsistent(es: seq<Event>)
    ensures Consistent(After(es))
  {
    if es == [] {
    } else {
      AlwaysConsistent(es[..|es| - 1]);
    }
  }

  /** A registered device serves a message exactly when it is not shredded or its tombstone is still pending there. */
  lemma ServeExact(es: seq<Event>, d: Id, m: Id)
    ensures var s := After(es);
            MayServe(s, d, m) <==> d in s.devices && (m !in s.global || PendingOn(s, d, m))
  {
    AlwaysConsistent(es);
  }

  // ---- The global set ----

  function Mentioned(e: Event): set<Id> {
    match e
    case Tombstone(m) => {m}
    case Merge(ms) => Elements(ms)
    case _ => {}
  }

  /** All messages a run shreds or merges, however often and in whatever order. */
  function AllMentioned(es: seq<Event>): set<Id> {
    set i, m | 0 <= i < |es| && m in Mentioned(es[i]) :: m
  }

  lemma {:induction false} GlobalIsUnion(es: seq<Event>)
    ensures After(es).global == AllMentioned(es)
  {
    if es == [] {
    } else {
      var last := |es| - 1;
      var init := es[..last];
      GlobalIsUnion(init);
      assert After(es).global == After(init).global + Mentioned(es[last]);
      forall m | m in AllMentioned(es) ensures m in AllMentioned(init) + Mentioned(es[last]) {
        var i :| 0 <= i < |es| && m in Mentioned(es[i]);
        assert i < last ==> m in Mentioned(init[i]);
      }
      forall m | m in AllMentioned(init) + Mentioned(es[last]) ensures m in AllMentioned(es) {
        if m in AllMentioned(init) {
          var i :| 0 <= i < |init| && m in Mentioned(init[i]);
          assert m in Mentioned(es[i]);
        }
      }
    }
  }

  predicate Online(es: seq<Event>, d: Id) {
    d in After(es).devices && After(es).devices[d].online
  }

  /**
   Convergence: two runs that shred the same messages, in any order, grouping and number of repetitions, hold the
   same tombstones, and a device that is online in both serves the same messages in both.
   */
  lemma Convergence(es: seq<Event>, es': seq<Event>, d: Id, m: Id)
    requires AllMentioned(es) == AllMentioned(es')
    ensures After(es).global == After(es').global
    ensures Online(es, d) && Online(es', d) ==>
              MayServe(After(es), d, m) == MayServe(After(es'), d, m) == (m !in AllMentioned(es))
  {
    GlobalIsUnion(es);
    GlobalIsUnion(es');
    AlwaysConsistent(es);
    AlwaysConsistent(es');
  }

  /** Once every device is online, nothing is pending anywhere. */
  lemma NothingPendingOnline(es: seq<Event>, d: Id, m: Id)
    requires forall x | x in After(es).devices :: After(es).devices[x].online
    ensures !PendingOn(After(es), d, m)
  {
    AlwaysConsistent(es);
  }

  // ---- What an offline device remembers ----

  /** Whether a device is known, and online, by the events that name it. */
  function Status(es: seq<Event>, d: Id): Option<bool> {
    if es == [] then None
    else
      var before, e := Status(es[..|es| - 1], d), es[|es| - 1];
      if e.Register? && e.device == d then Some(e.online)
      else if e.SetOnline? && e.device == d && before.Some? then Some(e.online)
      else before
  }

  /** Only a registration makes a device known, and its latest event alone says whether it is online. */
  lemma {:induction false} StatusExact(es: seq<Event>, d: Id)
    ensures d in After(es).devices <==> Status(es, d).Some?
    ensures d in After(es).devices ==> After(es).devices[d].online == Status(es, d).value
    ensures d in After(es).devices <==> exists online :: Register(d, online) in es
  {
    if es == [] {
    } else {
      var init, e := es[..|es| - 1], es[|es| - 1];
      StatusExact(init, d);
      assert es == init + [e];
      assert e in es && forall x | x in init :: x in es;
    }
  }

  /**
   An offline device has seen exactly the global set as of the last moment it was online, unless it has been
   registered offline since.
   */
  lemma {:induction false} SeenAtLastOnline(es: seq<Event>, d: Id, k: nat)
    requires k <= |es| && Online(es[..k], d)
    requires forall j | k < j <= |es| :: !Online(es[..j], d)
    requires forall j | k <= j < |es| :: es[j] != Register(d, false)
    ensures d in After(es).devices && After(es).devices[d].seen == After(es[..k]).global
  {
    if k == |es| {
      assert es[..k] == es;
      AlwaysConsistent(es);
    } else {
      var last := |es| - 1;
      var init := es[..last];
      assert init[..k] == es[..k];
      assert forall j | k < j <= last :: init[..j] == es[..j];
      SeenAtLastOnline(init, d, k);
      assert es[..|es|] == es;
      assert !Online(es, d);
      assert es[last] != Register(d, false);
      assert k < last ==> !Online(init, d) by {
        assert init == es[..last];
      }
      assert k == last ==> init == es[..k];
    }
  }

  /** A device registered offline and never online since has seen nothing. */
  lemma {:induction false} SeenNothing(es: seq<Event>, d: Id, k: nat)
    requires k < |es| && es[k] == Register(d, false)
    requires forall j | k < j <= |es| :: !Online(es[..j], d)
    ensures d in After(es).devices && After(es).devices[d].seen == {}
  {
    var last := |es| - 1;
    var init := es[..last];
    if k == last {
    } else {
      assert forall j | k < j <= last :: init[..j] == es[..j];
      SeenNothing(init, d, k);
      assert es[..|es|] == es && init == es[..last];
      assert !Online(es, d) && !Online(init, d);
    }
  }

  // ---- Shredding is for good, except across an offline re-registration ----

  lemma {:induction false} StillSeen(es: seq<Event>, more: seq<Event>, d: Id, m: Id, n: nat)
    requires d in After(es).devices && m in After(es).devices[d].seen
    requires n <= |more| && Register(d, false) !in more
    ensures var s := After(es + more[..n]); d in s.devices && m in s.devices[d].seen
  {
    var run := es + more[..n];
    if n == 0 {
      assert run == es;
    } else {
      StillSeen(es, more, d, m, n - 1);
      assert run[..|run| - 1] == es + more[..n - 1] && run[|run| - 1] == more[n - 1];
      AlwaysConsistent(es + more[..n - 1]);
    }
  }

  /**
   Once a device has seen a tombstone it never serves that message again, whatever happens next, unless it is
   registered anew as offline; and that registration does bring the message back.
   */
  lemma ServesAgainIff(es: seq<Event>, more: seq<Event>, d: Id, m: Id)
    requires d in After(es).devices && m in After(es).devices[d].seen
    ensures (exists n | 0 <= n <= |more| :: MayServe(After(es + more[..n]), d, m))
            <==> Register(d, false) in more
  {
    if Register(d, false) in more {
      var n :| 0 <= n < |more| && more[n] == Register(d, false);
      var run := es + more[..n + 1];
      assert run[..|run| - 1] == es + more[..n] && run[|run| - 1] == more[n];
      assert MayServe(After(run), d, m);
    } else {
      forall n | 0 <= n <= |more| ensures !MayServe(After(es + more[..n]), d, m) {
        StillSeen(es, more, d, m, n);
      }
    }
  }

  // ---- The object ----

  class CrossDeviceShredState {
    var global: set<Id>
    var devices: map<Id, Device>

    function Abstract(): State
      reads this
    {
      State(global, devices)
    }

    constructor ()
      ensures Abstract() == EMPTY
    {
      global, devices := {}, map[];
    }

    static method Absorb(seen: set<Id>, ids: set<Id>) returns (r: set<Id>)
      ensures r == seen + ids
    {
      r := seen;
      var rest := ids;
      while rest != {}
        invariant rest <= ids && r == seen + (ids - rest)
        decreases rest
      {
        var id :| id in rest;
        r, rest := r + {id}, rest - {id};
      }
    }

    method SyncOnline(ids: set<Id>)
      modifies `devices
      ensures devices == Synced(old(devices), ids)
    {
      var rest := devices.Keys;
      while rest != {}
        invariant rest <= devices.Keys == old(devices).Keys
        invariant forall d | d in devices ::
            devices[d] == if d in rest then old(devices)[d] else Synced(old(devices), ids)[d]
        decreases rest
      {
        var d :| d in rest;
        if devices[d].online {
          var seen := Absorb(devices[d].seen, ids);
          devices := devices[d := Device(true, seen)];
        }
        rest := rest - {d};
      }
    }

    method RegisterDevice(d: Id, online: bool)
      modifies this
      ensures Abstract() == Step(old(Abstract()), Register(d, online))
    {
      var seen := {};
      if online {
        seen := Absorb(seen, global);
        assert seen == global;
      }
      devices := devices[d := Device(online, seen)];
    }

    method Shred(m: Id)
      modifies this
      ensures Abstract() == Step(old(Abstract()), Tombstone(m))
    {
      global := global + {m};
      SyncOnline({m});
    }

    method MergeTombstones(ms: seq<Id>)
      modifies this
      ensures Abstract() == Step(old(Abstract()), Merge(ms))
    {
      for i := 0 to |ms|
        invariant global == old(global) + Elements(ms[..i]) && devices == old(devices)
      {
        assert ms[..i + 1] == ms[..i] + [ms[i]];
        global := global + {ms[i]};
      }
      assert ms[..|ms|] == ms;
      SyncOnline(global);
    }

    method SetDeviceOnline(d: Id, online: bool)
      modifies this
      ensures Abstract() == Step(old(Abstract()), SetOnline(d, online))
    {
      if d in devices {
        var seen := devices[d].seen;
        if online {
          seen := Absorb(seen, global);
        }
        devices := devices[d := Device(online, seen)];
      }
    }
  }
}
