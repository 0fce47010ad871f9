/**
 * What the WireGuard manager of internal/wg/manager.go does, on offsets instead of address text
 * and without a scan hint, and what holds over every run of it.
 */
module ManagerSpec {
  import opened Common
  import opened Base64
  import opened Ipv4
  import opened IpPool
  import opened Device

  /** 10.200.0.0/16 */
  predicate InMesh(ip: uint32) { 0x0AC8_0000 <= ip < 0x0AC9_0000 }

  lemma MeshRangeIff(ip: uint32)
    ensures InMesh(ip) <==> Bytes(ip).a == 10 && Bytes(ip).b == 200
  {}

  /** The pool's network: more than one address, and disjoint from the mesh range. */
  datatype Net = Net(baseIP: uint32, maxHost: uint32) {
    ghost predicate Valid() {
      && 1 <= maxHost < 0x8000_0000
      && baseIP + maxHost < 0x1_0000_0000
      && (baseIP + maxHost < 0x0AC8_0000 || 0x0AC9_0000 <= baseIP)
    }

    function At(o: nat): IPNet
      requires baseIP + o < 0x1_0000_0000
    {
      Host(baseIP + o)
    }
  }

  /** peers: key text -> host offset; mesh: key text -> mesh IP text; dev: the kernel's table. */
  datatype View = View(peers: map<string, nat>, mesh: map<string, string>, dev: Dev)

  datatype Op =
    | AddPeer(key: string, keepalive: Interval, fails: bool)
    | RemovePeer(key: string, fails: bool)
    | UpdatePeer(key: string, keepalive: Interval, fails: bool)
    | AddMeshIP(key: string, ip: string, fails: bool)
    | RemoveMeshIP(key: string, fails: bool)

  datatype Error = PeerExists | InvalidKey | NoAddress | PeerNotFound | InvalidMeshIP | DeviceError

  datatype Reply = Done | Address(text: string) | Failed(e: Error)

  /** The assigned offsets: network, gateway and one per peer. */
  function Taken(v: View): set<nat> { {0, 1} + v.peers.Values }

  ghost predicate Decodable(peers: map<string, nat>) { forall s | s in peers :: Decode(s).Some? }

  /** Every peer is known under the text its key prints as. */
  ghost predicate Canonical(peers: map<string, nat>) { forall s | s in peers :: IsKeyText(s) }

  ghost function PeerKeys(peers: map<string, nat>): set<Key>
    requires Decodable(peers)
  {
    set s | s in peers :: KeyOf(s)
  }

  ghost predicate SameKey(peers: map<string, nat>, s: string, t: string) {
    s in peers && t in peers && Decode(s).Some? && Decode(t).Some? && KeyOf(s) == KeyOf(t) ==> s == t
  }

  /** No key is a peer under two texts. */
  ghost predicate OneText(peers: map<string, nat>) {
    forall s, t {:trigger SameKey(peers, s, t)} :: SameKey(peers, s, t)
  }

  ghost predicate Distinct(peers: map<string, nat>, s: string, t: string) {
    s in peers && t in peers && s != t ==> peers[s] != peers[t]
  }

  ghost predicate Injective(peers: map<string, nat>) {
    forall s, t {:trigger Distinct(peers, s, t)} :: Distinct(peers, s, t)
  }

  /** No allowed IP belongs to two peers. */
  ghost predicate Owned(dev: Dev) {
    forall k, l | k in dev && l in dev && k != l :: dev[k].allowed !! dev[l].allowed
  }

  ghost predicate Hosts(n: Net, peers: map<string, nat>) {
    forall s | s in peers :: 2 <= peers[s] < n.maxHost
  }

  /** Texts name one key and one offset each; every allowed IP on the device is accounted for. */
  ghost predicate Consistent(n: Net, v: View) {
    && Decodable(v.peers) && OneText(v.peers)
    && Hosts(n, v.peers)
    && Injective(v.peers)
    && MeshTexts(v.mesh)
    && v.dev.Keys == PeerKeys(v.peers)
    && (forall s | s in v.peers :: PeerAgrees(n, v, s))
    && Owned(v.dev)
  }

  ghost predicate MeshTexts(mesh: map<string, string>) {
    forall s | s in mesh :: Decode(s).Some? && ParseIP(mesh[s]).Some? && InMesh(ParseIP(mesh[s]).value)
  }

  /** Consistent, and with the texts a restart would come up with. */
  ghost predicate Agree(n: Net, v: View) { Consistent(n, v) && Canonical(v.peers) }

  /** The peer's own address is routed to it, and at most the recorded mesh IP besides. */
  ghost predicate PeerAgrees(n: Net, v: View, s: string)
    requires s in v.peers && Decode(s).Some?
  {
    && n.baseIP + v.peers[s] < 0x1_0000_0000
    && KeyOf(s) in v.dev
    && n.At(v.peers[s]) in v.dev[KeyOf(s)].allowed
    && forall a | a in v.dev[KeyOf(s)].allowed :: a == n.At(v.peers[s]) || IsMeshOf(v, s, a)
  }

  ghost predicate IsMeshOf(v: View, s: string, a: IPNet) {
    s in v.mesh && ParseIP(v.mesh[s]).Some? && a == Host(ParseIP(v.mesh[s]).value)
  }

  function Change(key: Key, updateOnly: bool, replace: bool, allowed: set<IPNet>, keepalive: Option<Interval>): PeerConfig {
    PeerConfig(key, false, updateOnly, replace, allowed, keepalive)
  }

  function Step(n: Net, v: View, op: Op): (View, Reply)
    requires n.Valid() && Hosts(n, v.peers)
  {
    match op
    case AddPeer(key, keepalive, fails) =>
      if key in v.peers then (v, Failed(PeerExists))
      else if Decode(key).None? then (v, Failed(InvalidKey))
      else if NextOffset(Taken(v), n.maxHost).None? then (v, Failed(NoAddress))
      else if fails then (v, Failed(DeviceError))
      else
        var o := NextOffset(Taken(v), n.maxHost).value;
        (View(v.peers[key := o], v.mesh, Apply(v.dev, Change(KeyOf(key), false, false, {n.At(o)}, Some(keepalive)))),
         Address(HostText(n.baseIP, o)))
    case RemovePeer(key, fails) =>
      if Decode(key).None? then (v, Failed(InvalidKey))
      else if fails then (v, Failed(DeviceError))
      else (View(v.peers - {key}, v.mesh, Apply(v.dev, PeerConfig(KeyOf(key), true, false, false, {}, None))), Done)
    case UpdatePeer(key, keepalive, fails) =>
      if Decode(key).None? then (v, Failed(InvalidKey))
      else if key !in v.peers then (v, Failed(PeerNotFound))
      else if fails then (v, Failed(DeviceError))
      else
        (v.(dev := Apply(v.dev, Change(KeyOf(key), true, false, {n.At(v.peers[key])}, Some(keepalive)))), Done)
    case AddMeshIP(key, ip, fails) =>
      if Decode(key).None? then (v, Failed(InvalidKey))
      else if key !in v.peers then (v, Failed(PeerNotFound))
      else if ParseIP(ip).None? then (v, Failed(InvalidMeshIP))
      else if fails then (v, Failed(DeviceError))
      else
        var both := {n.At(v.peers[key]), Host(ParseIP(ip).value)};
        (View(v.peers, v.mesh[key := ip], Apply(v.dev, Change(KeyOf(key), true, true, both, None))), Done)
    case RemoveMeshIP(key, fails) =>
      if key !in v.mesh then (v, Done)
      else if Decode(key).None? then (v, Failed(InvalidKey))
      else if key !in v.peers then (v, Failed(PeerNotFound))
      else if fails then (v, Failed(DeviceError))
      else
        (View(v.peers, v.mesh - {key}, Apply(v.dev, Change(KeyOf(key), true, true, {n.At(v.peers[key])}, None))), Done)
  }

  /** The call gets as far as changing the device, after which the file is written. */
  predicate Changes(v: View, op: Op, r: Reply) { !r.Failed? && (op.RemoveMeshIP? ==> op.key in v.mesh) }

  /** The other calls leave maps, pool and device as they were. */
  lemma NothingChanges(n: Net, v: View, op: Op)
    requires n.Valid() && Hosts(n, v.peers)
    ensures !Changes(v, op, Step(n, v, op).1) ==> Step(n, v, op).0 == v
  {
    hide ParseIP, Decode, KeyOf, Apply, NextOffset, FormatIP;
  }

  lemma StepHosts(n: Net, v: View, op: Op)
    requires n.Valid() && Hosts(n, v.peers)
    ensures Hosts(n, Step(n, v, op).0.peers)
  {
    hide ParseIP, Decode, KeyOf, Apply, NextOffset, FormatIP;
    if NextOffset(Taken(v), n.maxHost).Some? {
      assert NextOffset(Taken(v), n.maxHost).value !in Taken(v);
    }
  }

  // ---- What a step keeps, and exactly when ----

  lemma PeerKeysAdd(peers: map<string, nat>, s: string, o: nat)
    requires Decodable(peers) && Decode(s).Some?
    ensures Decodable(peers[s := o]) && PeerKeys(peers[s := o]) == PeerKeys(peers) + {KeyOf(s)}
  {
    hide Decode, KeyOf;
    var more := peers[s := o];
    assert forall t | t in peers :: t in more;
    assert s in more;
  }

  lemma AddOneText(peers: map<string, nat>, s: string, o: nat)
    requires Decodable(peers) && OneText(peers) && Decode(s).Some? && s !in peers
    ensures OneText(peers[s := o]) <==> KeyOf(s) !in PeerKeys(peers)
  {
    hide Decode, KeyOf;
    var more := peers[s := o];
    if KeyOf(s) in PeerKeys(peers) {
      var t :| t in peers && KeyOf(t) == KeyOf(s);
      assert !SameKey(more, s, t);
    } else {
      forall t, u ensures SameKey(more, t, u) {
        assert SameKey(peers, t, u);
      }
    }
  }

  lemma RemoveOneText(peers: map<string, nat>, s: string)
    requires OneText(peers)
    ensures OneText(peers - {s})
  {
    hide Decode, KeyOf;
    var fewer := peers - {s};
    forall t, u ensures SameKey(fewer, t, u) {
      assert SameKey(peers, t, u);
    }
  }

  lemma AddDistinct(peers: map<string, nat>, s: string, o: nat)
    requires Injective(peers) && o !in peers.Values
    ensures Injective(peers[s := o])
  {
    var more := peers[s := o];
    forall t, u ensures Distinct(more, t, u) {
      assert Distinct(peers, t, u);
    }
  }

  lemma RemoveDistinct(peers: map<string, nat>, s: string)
    requires Injective(peers)
    ensures Injective(peers - {s})
  {
    var fewer := peers - {s};
    forall t, u ensures Distinct(fewer, t, u) {
      assert Distinct(peers, t, u);
    }
  }

  lemma PeerKeysRemove(peers: map<string, nat>, s: string)
    requires Decodable(peers) && OneText(peers) && Decode(s).Some?
    ensures PeerKeys(peers - {s}) == (if s in peers then PeerKeys(peers) - {KeyOf(s)} else PeerKeys(peers))
  {
    hide Decode, KeyOf;
    var fewer := peers - {s};
    forall t | t in fewer ensures s in peers ==> KeyOf(t) != KeyOf(s) {
      assert SameKey(peers, s, t);
    }
    forall t | t in peers && t != s ensures t in fewer {}
  }

  /** What a change does to the device: the key's set grows or is replaced, the others lose what it gains. */
  lemma ApplyEffect(dev: Dev, key: Key, updateOnly: bool, replace: bool, allowed: set<IPNet>, keepalive: Option<Interval>)
    requires Owned(dev) && (updateOnly ==> key in dev)
    ensures var d := Apply(dev, Change(key, updateOnly, replace, allowed, keepalive));
      && Owned(d)
      && d.Keys == dev.Keys + {key}
      && d[key].allowed == (if replace || key !in dev then {} else dev[key].allowed) + allowed
      && forall k | k in dev && k != key :: d[k].allowed == dev[k].allowed - allowed
  {}

  /** Enrolling a key that is not on the device. */
  lemma AddKeeps(n: Net, v: View, s: string, o: nat, keepalive: Option<Interval>)
    requires n.Valid() && Consistent(n, v) && Decode(s).Some? && s !in v.peers && KeyOf(s) !in v.dev
    requires 2 <= o < n.maxHost && o !in v.peers.Values
    ensures Consistent(n, View(v.peers[s := o], v.mesh, Apply(v.dev, Change(KeyOf(s), false, false, {n.At(o)}, keepalive))))
  {
    hide ParseIP, Decode, FormatIP, KeyOf, Apply, PeerKeys, Owned, OneText, Injective;
    var w := View(v.peers[s := o], v.mesh, Apply(v.dev, Change(KeyOf(s), false, false, {n.At(o)}, keepalive)));
    PeerKeysAdd(v.peers, s, o);
    AddOneText(v.peers, s, o);
    AddDistinct(v.peers, s, o);
    ApplyEffect(v.dev, KeyOf(s), false, false, {n.At(o)}, keepalive);
    forall t | t in w.peers ensures PeerAgrees(n, w, t) {
      if t != s { OtherAgrees(n, v, w, t, {n.At(o)}); }
    }
  }

  /** A peer is not touched by a change of another key that takes none of its addresses but perhaps its mesh IP. */
  lemma OtherAgrees(n: Net, v: View, w: View, t: string, taken: set<IPNet>)
    requires t in v.peers && Decode(t).Some? && PeerAgrees(n, v, t) && n.At(v.peers[t]) !in taken
    requires t in w.peers && w.peers[t] == v.peers[t] && KeyOf(t) in w.dev
    requires w.dev[KeyOf(t)].allowed == v.dev[KeyOf(t)].allowed - taken
    requires t in v.mesh ==> t in w.mesh && w.mesh[t] == v.mesh[t]
    ensures PeerAgrees(n, w, t)
  {}

  /** Removing a peer under its own text, or a key that is not on the device. */
  lemma RemoveKeeps(n: Net, v: View, s: string)
    requires n.Valid() && Consistent(n, v) && Decode(s).Some? && (s in v.peers || KeyOf(s) !in v.dev)
    ensures Consistent(n, View(v.peers - {s}, v.mesh, v.dev - {KeyOf(s)}))
  {
    hide ParseIP, Decode, FormatIP, KeyOf, PeerKeys, OneText, Injective;
    var w := View(v.peers - {s}, v.mesh, v.dev - {KeyOf(s)});
    PeerKeysRemove(v.peers, s);
    RemoveOneText(v.peers, s);
    RemoveDistinct(v.peers, s);
    forall t | t in w.peers ensures PeerAgrees(n, w, t) {
      assert PeerAgrees(n, v, t);
      InKeys(v.peers - {s}, t);
    }
  }

  lemma InKeys(peers: map<string, nat>, s: string)
    requires Decodable(peers) && s in peers
    ensures KeyOf(s) in PeerKeys(peers)
  {
    hide Decode, KeyOf;
  }

  /** An update-only change that gives a peer its own address, and perhaps its recorded mesh IP. */
  lemma ChangeKeeps(n: Net, v: View, w: View, s: string, replace: bool, allowed: set<IPNet>, keepalive: Option<Interval>)
    requires n.Valid() && Consistent(n, v) && s in v.peers
    requires w.peers == v.peers
    requires w.dev == Apply(v.dev, Change(KeyOf(s), true, replace, allowed, keepalive))
    requires MeshTexts(w.mesh)
    requires forall t | t in v.mesh && t != s :: t in w.mesh && w.mesh[t] == v.mesh[t]
    requires replace || w.mesh == v.mesh
    requires n.baseIP + v.peers[s] < 0x1_0000_0000
    requires n.At(v.peers[s]) in allowed
    requires forall a | a in allowed :: a == n.At(v.peers[s]) || IsMeshOf(w, s, a)
    ensures Consistent(n, w)
  {
    hide ParseIP, Decode, FormatIP, KeyOf, Apply, PeerKeys, Owned, OneText;
    assert PeerAgrees(n, v, s);
    ApplyEffect(v.dev, KeyOf(s), true, replace, allowed, keepalive);
    forall t | t in w.peers ensures PeerAgrees(n, w, t) {
      assert PeerAgrees(n, v, t);
      if t != s {
        assert Distinct(v.peers, s, t) && n.At(v.peers[t]) != n.At(v.peers[s]);
        OtherKey(v.peers, s, t);
      }
    }
  }

  lemma OtherKey(peers: map<string, nat>, s: string, t: string)
    requires Decodable(peers) && OneText(peers) && s in peers && t in peers && s != t
    ensures KeyOf(s) != KeyOf(t)
  {
    assert SameKey(peers, s, t);
  }

  /**
   * The operations that break consistency: enrolling a key that is on the device under another
   * text, removing a peer through another text, and routing an address outside the mesh range.
   */
  predicate Clashes(n: Net, v: View, op: Op)
    requires n.Valid() && Hosts(n, v.peers)
  {
    !Step(n, v, op).1.Failed? &&
    match op
    case AddPeer(key, _, _) => KeyOf(key) in v.dev
    case RemovePeer(key, _) => key !in v.peers && KeyOf(key) in v.dev
    case AddMeshIP(_, ip, _) => !InMesh(ParseIP(ip).value)
    case _ => false
  }

  lemma NewOffset(n: Net, v: View)
    requires n.Valid() && NextOffset(Taken(v), n.maxHost).Some?
    ensures var o := NextOffset(Taken(v), n.maxHost).value;
      2 <= o < n.maxHost && o !in v.peers.Values
  {
    hide NextOffset;
    assert NextOffset(Taken(v), n.maxHost).value !in Taken(v);
  }

  lemma AddIff(n: Net, v: View, op: Op)
    requires n.Valid() && Consistent(n, v) && op.AddPeer?
    ensures Consistent(n, Step(n, v, op).0) <==> !Clashes(n, v, op)
  {
    hide ParseIP, Decode, FormatIP, KeyOf, Apply, PeerKeys, Owned, NextOffset, OneText, Injective, PeerAgrees, MeshTexts;
    if !Step(n, v, op).1.Failed? {
      var o := NextOffset(Taken(v), n.maxHost).value;
      NewOffset(n, v);
      AddOneText(v.peers, op.key, o);
      if KeyOf(op.key) !in v.dev { AddKeeps(n, v, op.key, o, Some(op.keepalive)); }
    }
  }

  lemma RemoveIff(n: Net, v: View, op: Op)
    requires n.Valid() && Consistent(n, v) && op.RemovePeer?
    ensures Consistent(n, Step(n, v, op).0) <==> !Clashes(n, v, op)
  {
    hide ParseIP, Decode, FormatIP, KeyOf, PeerKeys, Owned, OneText, Injective, PeerAgrees, MeshTexts;
    if !Step(n, v, op).1.Failed? {
      PeerKeysRemove(v.peers, op.key);
      if op.key in v.peers || KeyOf(op.key) !in v.dev { RemoveKeeps(n, v, op.key); }
    }
  }

  lemma OwnAddressFits(n: Net, v: View, s: string)
    requires n.Valid() && Consistent(n, v) && s in v.peers
    ensures n.baseIP + v.peers[s] < 0x1_0000_0000
  {
    assert PeerAgrees(n, v, s);
  }

  lemma ChangeIff(n: Net, v: View, op: Op)
    requires n.Valid() && Consistent(n, v) && !op.AddPeer? && !op.RemovePeer?
    ensures Consistent(n, Step(n, v, op).0) <==> !Clashes(n, v, op)
  {
    hide ParseIP, Decode, FormatIP, KeyOf, Apply, PeerKeys, Owned, OneText, Injective, PeerAgrees;
    var w := Step(n, v, op).0;
    if w != v && !Clashes(n, v, op) {
      OwnAddressFits(n, v, op.key);
      var own := n.At(v.peers[op.key]);
      match op
      case UpdatePeer(key, keepalive, _) => ChangeKeeps(n, v, w, key, false, {own}, Some(keepalive));
      case AddMeshIP(key, ip, _) => ChangeKeeps(n, v, w, key, true, {own, Host(ParseIP(ip).value)}, None);
      case RemoveMeshIP(key, _) => ChangeKeeps(n, v, w, key, true, {own}, None);
    }
  }

  /** Manager, pool and device stay consistent, also after a refused operation, exactly if the operation does not clash. */
  lemma ConsistentIff(n: Net, v: View, op: Op)
    requires n.Valid() && Consistent(n, v)
    ensures Consistent(n, Step(n, v, op).0) <==> !Clashes(n, v, op)
  {
    hide Consistent, Step, Clashes;
    ConsistentHosts(n, v);
    if op.AddPeer? { AddIff(n, v, op); } else if op.RemovePeer? { RemoveIff(n, v, op); } else { ChangeIff(n, v, op); }
  }

  lemma ConsistentHosts(n: Net, v: View)
    requires Consistent(n, v)
    ensures Hosts(n, v.peers) && Decodable(v.peers) && OneText(v.peers)
  {}

  /**
   * The operations that break the agreement: a successful AddPeer with a text that is not its key's
   * own, a removal of an existing peer through such a text, and an address outside the mesh range.
   */
  predicate Spoils(n: Net, v: View, op: Op)
    requires n.Valid() && Hosts(n, v.peers)
  {
    !Step(n, v, op).1.Failed? &&
    match op
    case AddPeer(key, _, _) => !IsKeyText(key)
    case RemovePeer(key, _) => !IsKeyText(key) && KeyOf(key) in v.dev
    case AddMeshIP(_, ip, _) => !InMesh(ParseIP(ip).value)
    case _ => false
  }

  /** Key text is injective in the key. */
  lemma KeyInjective(s: string, t: string)
    requires IsKeyText(s) && IsKeyText(t) && KeyOf(s) == KeyOf(t)
    ensures s == t
  {}

  /** Among canonical texts a key is on the device exactly if its text is a peer. */
  lemma OnDeviceIff(n: Net, v: View, s: string)
    requires Agree(n, v) && IsKeyText(s)
    ensures KeyOf(s) in v.dev <==> s in v.peers
  {
    hide Decode, Encode, KeyOf, ParseIP, IsKeyText;
    if KeyOf(s) in v.dev {
      var t :| t in v.peers && KeyOf(t) == KeyOf(s);
      KeyInjective(s, t);
    }
  }

  /** Manager, pool and device stay in agreement, also after a refused operation, exactly if the operation does not spoil it. */
  lemma AgreeIff(n: Net, v: View, op: Op)
    requires n.Valid() && Agree(n, v)
    ensures Agree(n, Step(n, v, op).0) <==> !Spoils(n, v, op)
  {
    hide Consistent, KeyOf, IsKeyText, ParseIP, FormatIP, NextOffset, Apply;
    ConsistentHosts(n, v);
    ConsistentIff(n, v, op);
    if Decode(op.key).Some? && IsKeyText(op.key) { OnDeviceIff(n, v, op.key); }
  }

  /** A successful AddPeer keeps the agreement exactly when its key text is the one the key prints as. */
  lemma AddPeerAgreesIff(n: Net, v: View, key: string, keepalive: Interval)
    requires n.Valid() && Agree(n, v) && Step(n, v, AddPeer(key, keepalive, false)).1.Address?
    ensures Agree(n, Step(n, v, AddPeer(key, keepalive, false)).0) <==> Encode(KeyOf(key)) == key
  {
    hide Consistent, Decode, Encode, FormatIP, NextOffset, Apply, Step, Agree;
    AddPeerDecodes(n, v, key, keepalive);
    AgreeIff(n, v, AddPeer(key, keepalive, false));
  }

  lemma AddPeerDecodes(n: Net, v: View, key: string, keepalive: Interval)
    requires n.Valid() && Agree(n, v) && Step(n, v, AddPeer(key, keepalive, false)).1.Address?
    ensures Decode(key).Some? && Hosts(n, v.peers)
  {}
}
