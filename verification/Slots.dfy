/**
 * The capacity of VPN servers: the SQL statements of internal/repo/server.go and internal/repo/peer.go
 * that touch current_peers and the peer rows, and the handlers of internal/control that issue them.
 */
module Slots {
  import opened Common

  datatype Server = Server(current: int, max: nat, active: bool)

  datatype Peer = Peer(user: nat, server: nat, key: string, active: bool)

  datatype Tables = Tables(servers: map<nat, Server>, peers: map<nat, Peer>)

  // ---- One statement each ----

  /** The WHERE clause of ReserveSlot. */
  predicate CanReserve(t: Tables, sv: nat) {
    sv in t.servers && t.servers[sv].active && t.servers[sv].current < t.servers[sv].max
  }

  /** UpdatePeerCount: GREATEST(current_peers + delta, 0). */
  function Shifted(t: Tables, sv: nat, delta: int): Tables {
    if sv !in t.servers then t
    else
      var n := t.servers[sv].current + delta;
      t.(servers := t.servers[sv := t.servers[sv].(current := if n > 0 then n else 0)])
  }

  /** The server exists, and the key is not active on it already (a partial unique index). */
  predicate CanCreate(t: Tables, p: Peer) {
    p.server in t.servers && !exists id | id in t.peers :: SameSlot(t.peers[id], p)
  }

  predicate SameSlot(p: Peer, q: Peer) { p.active && q.active && p.server == q.server && p.key == q.key }

  function Inserted(t: Tables, id: nat, p: Peer): Tables { t.(peers := t.peers[id := p]) }

  function Deactivated(t: Tables, id: nat): Tables {
    if id in t.peers then t.(peers := t.peers[id := t.peers[id].(active := false)]) else t
  }

  function Deleted(t: Tables, id: nat): Tables { t.(peers := t.peers - {id}) }

  // ---- Counting ----

  ghost predicate IsActiveOn(peers: map<nat, Peer>, id: nat, sv: nat) {
    id in peers && peers[id].active && peers[id].server == sv
  }

  ghost function Active(peers: map<nat, Peer>, sv: nat): (s: set<nat>)
    ensures forall id :: id in s <==> IsActiveOn(peers, id, sv)
  {
    set id | id in peers && IsActiveOn(peers, id, sv)
  }

  /** The maps hold the same rows but perhaps for one. */
  ghost predicate Elsewhere<T(!new)>(before: map<nat, T>, after: map<nat, T>, x: nat) {
    forall k | k != x :: (k in before <==> k in after) && (k in before ==> before[k] == after[k])
  }

  lemma ActiveChange(before: map<nat, Peer>, after: map<nat, Peer>, id: nat, sv: nat)
    requires Elsewhere(before, after, id)
    ensures |Active(after, sv)| == |Active(before, sv)| - Bit(IsActiveOn(before, id, sv)) + Bit(IsActiveOn(after, id, sv))
  {
    hide Active;
    CardChange(Active(before, sv), Active(after, sv), id);
  }

  // ---- Handlers, running alone ----

  /** Every server's counter covers its active peers and stays within its capacity. */
  ghost predicate Covered(t: Tables) {
    && (forall id | id in t.peers :: t.peers[id].server in t.servers)
    && (forall sv | sv in t.servers :: |Active(t.peers, sv)| <= t.servers[sv].current <= t.servers[sv].max)
  }

  /** The teardown handlers: unconditional decrement or only for a peer that was active, then deactivate or delete. */
  datatype Kind = Disconnect | DeleteConnection | BanOrCleanup

  /** What of the environment works: the server lookup, the counter update, the final statement on the row. */
  datatype Luck = Luck(serverFound: bool, updateWorks: bool, rowWorks: bool)

  datatype Connected = Existing(id: nat) | TooManyDevices | Full | CoreFailed | NotSaved | Created(id: nat)

  ghost predicate IsActiveOf(peers: map<nat, Peer>, id: nat, user: nat) {
    id in peers && peers[id].active && peers[id].user == user
  }

  ghost function ActiveOf(peers: map<nat, Peer>, user: nat): (s: set<nat>)
    ensures forall id :: id in s <==> IsActiveOf(peers, id, user)
  {
    set id | id in peers && IsActiveOf(peers, id, user)
  }

  /** What a Connect with a new key answers: the first check that fails, in this order. */
  ghost function ConnectReply(t: Tables, sv: nat, id: nat, user: nat, key: string, maxDevices: nat, coreWorks: bool): Connected {
    if maxDevices > 0 && |ActiveOf(t.peers, user)| >= maxDevices then TooManyDevices
    else if !CanReserve(t, sv) then Full
    else if !coreWorks then CoreFailed
    else if !CanCreate(t, Peer(user, sv, key, true)) then NotSaved
    else Connected.Created(id)
  }

  /** What a Connect with a new key leaves. */
  function AfterConnect(t: Tables, r: Connected, sv: nat, id: nat, user: nat, key: string, rollbackWorks: bool): Tables {
    if r.Created? then Inserted(Shifted(t, sv, 1), id, Peer(user, sv, key, true))
    else if (r.CoreFailed? || r.NotSaved?) && !rollbackWorks then Shifted(t, sv, 1)
    else t
  }

  /** The teardown lowers the counter: Disconnect for any row, the others for an active one. */
  predicate Lowers(p: Peer, kind: Kind, luck: Luck) {
    (kind.Disconnect? || p.active) && luck.serverFound && luck.updateWorks
  }

  function TornDown(t: Tables, id: nat, kind: Kind, luck: Luck): Tables
    requires id in t.peers
  {
    var p := t.peers[id];
    if kind.BanOrCleanup? && !p.active then t
    else
      var t1 := if Lowers(p, kind, luck) then Shifted(t, p.server, -1) else t;
      if !luck.rowWorks then t1 else if kind.DeleteConnection? then Deleted(t1, id) else Deactivated(t1, id)
  }

  /** The rows of a list, one after the other. */
  function AllTornDown(t: Tables, ids: seq<nat>, lucks: seq<Luck>): Tables
    requires |lucks| == |ids|
  {
    if ids == [] then t
    else
      var k := |ids| - 1;
      var before := AllTornDown(t, ids[..k], lucks[..k]);
      if ids[k] in before.peers then TornDown(before, ids[k], BanOrCleanup, lucks[k]) else before
  }

  lemma ShiftedCanCreate(t: Tables, sv: nat, p: Peer)
    ensures CanCreate(Shifted(t, sv, 1), p) <==> CanCreate(t, p)
    ensures Shifted(t, sv, 1).peers == t.peers
  {
    hide SameSlot;
  }

  /** A slot taken and given back. */
  lemma BackAndForth(t: Tables, sv: nat)
    requires sv in t.servers && 0 <= t.servers[sv].current
    ensures Shifted(Shifted(t, sv, 1), sv, -1) == t
  {
    assert Shifted(Shifted(t, sv, 1), sv, -1).servers == t.servers;
  }

  class Store {
    var servers: map<nat, Server>
    var peers: map<nat, Peer>

    function Now(): Tables
      reads this
    {
      Tables(servers, peers)
    }

    constructor (t: Tables)
      ensures Now() == t
    {
      servers, peers := t.servers, t.peers;
    }

    method ReserveSlot(sv: nat) returns (ok: bool)
      modifies this`servers
      ensures ok <==> CanReserve(old(Now()), sv)
      ensures !ok ==> Now() == old(Now())
      ensures ok && 0 <= old(servers)[sv].current ==> Now() == Shifted(old(Now()), sv, 1) && servers[sv].current <= servers[sv].max
    {
      ok := sv in servers && servers[sv].active && servers[sv].current < servers[sv].max;
      if ok {
        servers := servers[sv := servers[sv].(current := servers[sv].current + 1)];
      }
    }

    method UpdatePeerCount(sv: nat, delta: int)
      modifies this`servers
      ensures Now() == Shifted(old(Now()), sv, delta)
      ensures forall k | k in old(servers) && 0 <= old(servers)[k].current :: k in servers && 0 <= servers[k].current
    {
      if sv in servers {
        var n := servers[sv].current + delta;
        if n < 0 {
          n := 0;
        }
        servers := servers[sv := servers[sv].(current := n)];
      }
    }

    method Create(id: nat, p: Peer) returns (ok: bool)
      modifies this`peers
      ensures ok <==> CanCreate(old(Now()), p)
      ensures Now() == if ok then Inserted(old(Now()), id, p) else old(Now())
    {
      ok := p.server in servers;
      var left := peers.Keys;
      while ok && left != {}
        invariant left <= peers.Keys && (ok ==> p.server in servers)
        invariant ok ==> forall k | k in peers && k !in left :: !SameSlot(peers[k], p)
        invariant !ok ==> !CanCreate(Now(), p)
        decreases |left|
      {
        var k :| k in left;
        left := left - {k};
        ok := !(peers[k].active && p.active && peers[k].server == p.server && peers[k].key == p.key);
      }
      if ok {
        peers := peers[id := p];
      }
    }

    method Deactivate(id: nat)
      modifies this`peers
      ensures Now() == Deactivated(old(Now()), id)
    {
      if id in peers {
        peers := peers[id := peers[id].(active := false)];
      }
    }

    method Delete(id: nat)
      modifies this`peers
      ensures Now() == Deleted(old(Now()), id)
    {
      peers := peers - {id};
    }

    /** GetActiveByUserAndPublicKey: any one such row. */
    method FindActive(user: nat, key: string) returns (r: Option<nat>)
      ensures r.Some? ==> IsActiveOf(peers, r.value, user) && peers[r.value].key == key
      ensures r.None? ==> forall id | IsActiveOf(peers, id, user) :: peers[id].key != key
    {
      var left := peers.Keys;
      while left != {}
        invariant left <= peers.Keys
        invariant forall id | IsActiveOf(peers, id, user) && id !in left :: peers[id].key != key
        decreases |left|
      {
        var k :| k in left;
        left := left - {k};
        if peers[k].active && peers[k].user == user && peers[k].key == key {
          return Some(k);
        }
      }
      return None;
    }

    method CountByUser(user: nat) returns (n: nat)
      ensures n == |ActiveOf(peers, user)|
    {
      hide ActiveOf;
      n := 0;
      ghost var seen: set<nat> := {};
      var left := peers.Keys;
      while left != {}
        invariant left <= peers.Keys && n == |seen|
        invariant forall id :: id in seen <==> id in ActiveOf(peers, user) && id !in left
        decreases |left|
      {
        var k :| k in left;
        left := left - {k};
        if peers[k].active && peers[k].user == user {
          assert IsActiveOf(peers, k, user);
          n, seen := n + 1, seen + {k};
        }
      }
      assert seen == ActiveOf(peers, user);
    }

    /**
     * An active peer of the same user and key is returned as it is, if the query for it and the
     * lookup of its server work; otherwise Connect goes on. A Connect that fails after the
     * reservation gives the slot back and leaves no trace, unless giving it back fails.
     */
    method Connect(sv: nat, id: nat, user: nat, key: string, maxDevices: nat,
      lookupWorks: bool, coreWorks: bool, rollbackWorks: bool) returns (r: Connected)
      requires id !in peers && (sv in servers ==> 0 <= servers[sv].current)
      modifies this
      ensures r.Existing? ==> IsActiveOf(old(peers), r.id, user) && old(peers)[r.id].key == key
      ensures r.Existing? <==> lookupWorks && exists k :: IsActiveOf(old(peers), k, user) && old(peers)[k].key == key
      ensures !r.Existing? ==> r == ConnectReply(old(Now()), sv, id, user, key, maxDevices, coreWorks)
      ensures Now() == AfterConnect(old(Now()), r, sv, id, user, key, rollbackWorks)
    {
      hide ActiveOf, Shifted, CanCreate;
      var existing := FindActive(user, key);
      if existing.Some? && lookupWorks {
        return Existing(existing.value);
      }
      if maxDevices > 0 {
        var activeCount := CountByUser(user);
        if activeCount >= maxDevices {
          return TooManyDevices;
        }
      }
      var reserved := ReserveSlot(sv);
      if !reserved {
        return Full;
      }
      ShiftedCanCreate(old(Now()), sv, Peer(user, sv, key, true));
      var slotReleased := false;
      if coreWorks {
        var saved := Create(id, Peer(user, sv, key, true));
        slotReleased := saved;
        r := if saved then Connected.Created(id) else NotSaved;
      } else {
        r := CoreFailed;
      }
      // The deferred rollback.
      if !slotReleased && rollbackWorks {
        UpdatePeerCount(sv, -1);
        BackAndForth(old(Now()), sv);
      }
    }

    /** Disconnect, AdminForceDisconnectPeer, DeleteConnection, and one turn of the ban and cleanup loops. */
    method TearDown(id: nat, kind: Kind, luck: Luck) returns (found: bool)
      modifies this
      ensures found <==> id in old(peers)
      ensures Now() == if found then TornDown(old(Now()), id, kind, luck) else old(Now())
    {
      if id !in peers {
        return false;
      }
      var peer := peers[id];
      if kind.BanOrCleanup? && !peer.active {
        return true;
      }
      if kind.Disconnect? || peer.active {
        if luck.serverFound && luck.updateWorks {
          UpdatePeerCount(peer.server, -1);
        }
      }
      if luck.rowWorks {
        match kind {
          case DeleteConnection => Delete(id);
          case _ => Deactivate(id);
        }
      }
      return true;
    }

    /**
     * The loop over a list of peers that AdminBanUser and the cleanup job have read. Running alone, a
     * row is at its turn as it was when the list was read.
     */
    method TearDownAll(ids: seq<nat>, lucks: seq<Luck>)
      requires |lucks| == |ids|
      modifies this
      ensures Now() == AllTornDown(old(Now()), ids, lucks)
    {
      hide TornDown;
      for i := 0 to |ids|
        invariant Now() == AllTornDown(old(Now()), ids[..i], lucks[..i])
      {
        assert ids[..i + 1][..i] == ids[..i] && lucks[..i + 1][..i] == lucks[..i];
        var _ := TearDown(ids[i], BanOrCleanup, lucks[i]);
      }
      assert ids[..|ids|] == ids && lucks[..|lucks|] == lucks;
    }
  }

  /**
   * The loop on working statements keeps every counter covering its active peers, deactivates the
   * listed peers and touches no other.
   */
  lemma {:induction false} LoopTearsDown(t: Tables, ids: seq<nat>, lucks: seq<Luck>)
    requires |lucks| == |ids| && Covered(t) && forall l | l in lucks :: l.rowWorks
    ensures var r := AllTornDown(t, ids, lucks);
      && Covered(r) && r.peers.Keys == t.peers.Keys
      && (forall id | id in ids && id in t.peers :: !r.peers[id].active)
      && (forall id | id in t.peers && id !in ids :: r.peers[id] == t.peers[id])
    decreases |ids|
  {
    hide Covered, Active;
    if ids != [] {
      var k := |ids| - 1;
      assert lucks[k] in lucks && forall l | l in lucks[..k] :: l in lucks;
      LoopTearsDown(t, ids[..k], lucks[..k]);
      var before := AllTornDown(t, ids[..k], lucks[..k]);
      assert ids == ids[..k] + [ids[k]];
      if ids[k] in before.peers { CoveredIff(before, ids[k], BanOrCleanup, lucks[k]); }
    }
  }

  // ---- What the handlers do to counters and rows ----

  /** A new peer is created exactly if the device limit, the server, the core and the unique index let it. */
  lemma ConnectCreatesIff(t: Tables, sv: nat, id: nat, user: nat, key: string, maxDevices: nat, coreWorks: bool)
    ensures ConnectReply(t, sv, id, user, key, maxDevices, coreWorks) == Connected.Created(id) <==>
      && (maxDevices == 0 || |ActiveOf(t.peers, user)| < maxDevices)
      && sv in t.servers && t.servers[sv].active && t.servers[sv].current < t.servers[sv].max
      && coreWorks
      && forall k | k in t.peers && t.peers[k].active && t.peers[k].server == sv :: t.peers[k].key != key
    ensures ConnectReply(t, sv, id, user, key, maxDevices, coreWorks) == TooManyDevices <==>
      0 < maxDevices <= |ActiveOf(t.peers, user)|
    ensures ConnectReply(t, sv, id, user, key, maxDevices, coreWorks) == Full <==>
      && !(0 < maxDevices <= |ActiveOf(t.peers, user)|)
      && (sv !in t.servers || !t.servers[sv].active || t.servers[sv].current >= t.servers[sv].max)
  {
    hide ActiveOf;
  }

  lemma ConnectNames(t: Tables, sv: nat, id: nat, user: nat, key: string, maxDevices: nat, coreWorks: bool)
    ensures var r := ConnectReply(t, sv, id, user, key, maxDevices, coreWorks); r.Created? ==> r == Connected.Created(id)
  {
    hide ActiveOf;
  }

  /** A Connect takes a slot of its server and adds its row, and nothing else; one that fails leaves all as it was. */
  lemma ConnectTakesOne(t: Tables, r: Connected, sv: nat, id: nat, user: nat, key: string, rollbackWorks: bool)
    requires sv in t.servers && 0 <= t.servers[sv].current && id !in t.peers
    ensures var after := AfterConnect(t, r, sv, id, user, key, rollbackWorks);
      && after.servers.Keys == t.servers.Keys && (forall k | k in t.servers && k != sv :: after.servers[k] == t.servers[k])
      && after.servers[sv].max == t.servers[sv].max && after.servers[sv].active == t.servers[sv].active
      && after.servers[sv].current == t.servers[sv].current +
         (if r.Created? || ((r.CoreFailed? || r.NotSaved?) && !rollbackWorks) then 1 else 0)
      && after.peers == if r.Created? then t.peers[id := Peer(user, sv, key, true)] else t.peers
  {}

  /** Connects running alone never take a user above the device limit, and leave the other users' devices alone. */
  lemma DeviceLimitKept(
    t: Tables, sv: nat, id: nat, user: nat, key: string, maxDevices: nat, coreWorks: bool, rollbackWorks: bool, other: nat)
    requires id !in t.peers && |ActiveOf(t.peers, user)| <= maxDevices
    ensures var r := ConnectReply(t, sv, id, user, key, maxDevices, coreWorks);
      var after := AfterConnect(t, r, sv, id, user, key, rollbackWorks);
      && (maxDevices > 0 ==> |ActiveOf(after.peers, user)| <= maxDevices)
      && (other != user ==> ActiveOf(after.peers, other) == ActiveOf(t.peers, other))
  {
    hide ActiveOf, ConnectReply, Shifted;
    ConnectCreatesIff(t, sv, id, user, key, maxDevices, coreWorks);
    ConnectNames(t, sv, id, user, key, maxDevices, coreWorks);
    ShiftedCanCreate(t, sv, Peer(user, sv, key, true));
    DeviceAdded(t.peers, id, Peer(user, sv, key, true), user);
    DeviceAdded(t.peers, id, Peer(user, sv, key, true), other);
  }

  lemma DeviceAdded(peers: map<nat, Peer>, id: nat, p: Peer, user: nat)
    requires id !in peers && p.active
    ensures ActiveOf(peers[id := p], user) == if p.user == user then ActiveOf(peers, user) + {id} else ActiveOf(peers, user)
    ensures id !in ActiveOf(peers, user)
  {
    hide ActiveOf;
  }

  /**
   * A teardown whose lookup and update work lowers its server's counter by one, if that is positive:
   * of an active peer always, of an inactive one only for Disconnect. The row is deactivated, or
   * deleted by DeleteConnection.
   */
  lemma TearDownGivesBack(t: Tables, id: nat, kind: Kind, luck: Luck)
    requires id in t.peers && forall sv | sv in t.servers :: 0 <= t.servers[sv].current
    ensures var p, r := t.peers[id], TornDown(t, id, kind, luck);
      && r.servers.Keys == t.servers.Keys
      && (forall sv | sv in t.servers :: r.servers[sv] == t.servers[sv].(current := t.servers[sv].current -
        if sv == p.server && (p.active || kind == Disconnect) && luck.serverFound && luck.updateWorks && t.servers[sv].current > 0
        then 1 else 0))
      && r.peers == if !luck.rowWorks || (kind == BanOrCleanup && !p.active) then t.peers
                    else if kind == DeleteConnection then t.peers - {id}
                    else t.peers[id := Peer(p.user, p.server, p.key, false)]
  {}

  /** The rows of the list on one server. */
  function RowsOn(t: Tables, ids: seq<nat>, sv: nat): nat {
    if ids == [] then 0
    else
      var id := ids[|ids| - 1];
      RowsOn(t, ids[..|ids| - 1], sv) + (if id in t.peers && t.peers[id].server == sv then 1 else 0)
  }

  /** The loop on different active rows lowers every counter by the number of its rows, down to zero at most. */
  lemma {:induction false} LoopGivesBack(t: Tables, ids: seq<nat>, lucks: seq<Luck>, sv: nat)
    requires |lucks| == |ids| && sv in t.servers && forall k | k in t.servers :: 0 <= t.servers[k].current
    requires forall i | 0 <= i < |ids| :: ids[i] in t.peers && t.peers[ids[i]].active
    requires forall i, j | 0 <= i < j < |ids| :: ids[i] != ids[j]
    requires forall l | l in lucks :: l.serverFound && l.updateWorks
    ensures var r := AllTornDown(t, ids, lucks);
      && r.servers.Keys == t.servers.Keys && (forall k | k in r.servers :: 0 <= r.servers[k].current)
      && r.servers[sv].current ==
         (if RowsOn(t, ids, sv) < t.servers[sv].current then t.servers[sv].current - RowsOn(t, ids, sv) else 0)
      && (forall id | id in t.peers && id !in ids :: id in r.peers && r.peers[id] == t.peers[id])
    decreases |ids|
  {
    hide TornDown;
    if ids != [] {
      var k := |ids| - 1;
      var id, before := ids[k], AllTornDown(t, ids[..k], lucks[..k]);
      assert lucks[k] in lucks && forall l | l in lucks[..k] :: l in lucks;
      LoopGivesBack(t, ids[..k], lucks[..k], sv);
      assert id !in ids[..k] && before.peers[id] == t.peers[id];
      TearDownGivesBack(before, id, BanOrCleanup, lucks[k]);
    }
  }

  lemma CoveredAfterConnect(t: Tables, sv: nat, id: nat, p: Peer)
    requires Covered(t) && CanReserve(t, sv) && id !in t.peers && p.active && p.server == sv
    ensures Covered(Inserted(Shifted(t, sv, 1), id, p))
  {
    var r := Inserted(Shifted(t, sv, 1), id, p);
    forall k | k in r.servers ensures |Active(r.peers, k)| <= r.servers[k].current <= r.servers[k].max {
      ActiveChange(t.peers, r.peers, id, k);
    }
  }

  /** A teardown whose last statement works takes the peer out of its server's active ones; no other server's change. */
  lemma ActiveAfterTearDown(t: Tables, id: nat, kind: Kind, luck: Luck, sv: nat)
    requires id in t.peers
    ensures |Active(TornDown(t, id, kind, luck).peers, sv)| ==
            |Active(t.peers, sv)| - Bit(t.peers[id].active && luck.rowWorks && sv == t.peers[id].server)
  {
    hide Active, Shifted;
    ShiftKeepsPeers(t, t.peers[id].server);
    ActiveChange(t.peers, TornDown(t, id, kind, luck).peers, id, sv);
  }

  lemma ShiftKeepsPeers(t: Tables, sv: nat)
    ensures Shifted(t, sv, -1).peers == t.peers
    ensures Shifted(t, sv, -1).servers.Keys == t.servers.Keys
    ensures forall k | k in t.servers && k != sv :: Shifted(t, sv, -1).servers[k] == t.servers[k]
  {}

  /** The counter of one server covers its active peers. */
  ghost predicate CoveredOn(t: Tables, sv: nat)
    requires sv in t.servers
  {
    |Active(t.peers, sv)| <= t.servers[sv].current <= t.servers[sv].max
  }

  /**
   * A teardown that runs alone keeps the counter covering the active peers exactly when it does not
   * lower the counter of a server with no slack without taking an active peer away: the peer is
   * inactive already, which only Disconnect goes on with, or the last statement fails.
   */
  lemma CoveredIff(t: Tables, id: nat, kind: Kind, luck: Luck)
    requires Covered(t) && id in t.peers
    ensures var p := t.peers[id];
      Covered(TornDown(t, id, kind, luck)) <==>
      !(Lowers(p, kind, luck) && !(p.active && luck.rowWorks) &&
        0 < t.servers[p.server].current == |Active(t.peers, p.server)|)
  {
    hide Active;
    var r, sv := TornDown(t, id, kind, luck), t.peers[id].server;
    ShiftKeepsPeers(t, sv);
    forall k | k in t.servers && k != sv ensures CoveredOn(r, k) {
      ActiveAfterTearDown(t, id, kind, luck, k);
    }
    ActiveAfterTearDown(t, id, kind, luck, sv);
    if t.peers[id].active { assert id in Active(t.peers, sv); }
    assert Covered(r) <==> CoveredOn(r, sv) by { CoveredByServer(t, r, id); }
  }

  lemma CoveredByServer(t: Tables, r: Tables, id: nat)
    requires Covered(t) && id in t.peers && r.servers.Keys == t.servers.Keys
    requires forall k | k in r.peers :: k in t.peers && r.peers[k].server == t.peers[k].server
    requires forall k | k in t.servers && k != t.peers[id].server :: CoveredOn(r, k)
    ensures Covered(r) <==> CoveredOn(r, t.peers[id].server)
  {
    hide Active;
  }

  /** Two disconnects of one peer, then two connects: three active peers on a server for two. */
  lemma DisconnectTwiceOverfills()
    ensures var t := Tables(map[0 := Server(2, 2, true)], map[10 := Peer(1, 0, "a", true), 11 := Peer(1, 0, "b", true)]);
      var all := Luck(true, true, true);
      var twice := TornDown(TornDown(t, 10, Disconnect, all), 10, Disconnect, all);
      var one := Inserted(Shifted(twice, 0, 1), 12, Peer(1, 0, "c", true));
      var two := Inserted(Shifted(one, 0, 1), 13, Peer(1, 0, "d", true));
      CanReserve(twice, 0) && CanReserve(one, 0) && Active(two.peers, 0) == {11, 12, 13} && two.servers[0] == Server(2, 2, true)
  {}
}
