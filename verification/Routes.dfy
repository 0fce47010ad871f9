/** What each call leaves on the device peer by peer, what it answers, and how long a mesh IP stays routed. */
module Routes {
  import opened Common
  import opened Base64
  import opened Ipv4
  import opened IpPool
  import opened Device
  import opened ManagerSpec
  import opened Restart
  import PoolRuns

  // ---- What the calls answer ----

  ghost predicate FreeHost(n: Net, v: View, o: nat) { 2 <= o < n.maxHost && forall s | s in v.peers :: v.peers[s] != o }

  lemma FullIff(n: Net, v: View)
    requires n.Valid() && Hosts(n, v.peers)
    ensures NextOffset(Taken(v), n.maxHost).None? <==> forall o: nat :: !FreeHost(n, v, o)
    ensures NextOffset(Taken(v), n.maxHost).Some? ==>
      var o := NextOffset(Taken(v), n.maxHost).value;
      FreeHost(n, v, o) && forall p: nat | p < o :: !FreeHost(n, v, p)
  {
    hide NextOffset;
    forall o: nat ensures FreeHost(n, v, o) <==> 2 <= o < n.maxHost && o !in Taken(v) { FreeIff(n, v, o); }
    if n.maxHost >= 2 {
      PoolRuns.AllocIsFirstFit(Taken(v), n.maxHost);
    } else {
      SubsetCard({0, 1}, Taken(v));
      NextOffsetIsLowest(Taken(v), n.maxHost);
    }
  }

  lemma FreeIff(n: Net, v: View, o: nat)
    ensures FreeHost(n, v, o) <==> 2 <= o < n.maxHost && o !in Taken(v)
  {
    if 2 <= o && o in Taken(v) { assert o in v.peers.Values; }
    forall s | s in v.peers ensures v.peers[s] in v.peers.Values {}
  }

  /** AddPeer: the first of these that applies, and the lowest free host otherwise. */
  lemma AddAnswers(n: Net, v: View, key: string, keepalive: Interval, fails: bool)
    requires n.Valid() && Hosts(n, v.peers)
    ensures var (w, r) := Step(n, v, AddPeer(key, keepalive, fails));
      if key in v.peers then r == Failed(PeerExists) && w == v
      else if Decode(key).None? then r == Failed(InvalidKey) && w == v
      else if forall o: nat :: !FreeHost(n, v, o) then r == Failed(NoAddress) && w == v
      else if fails then r == Failed(DeviceError) && w == v
      else
        && key in w.peers && FreeHost(n, v, w.peers[key]) && (forall p: nat | p < w.peers[key] :: !FreeHost(n, v, p))
        && r == Address(FormatIP(n.baseIP + w.peers[key]) + "/32")
        && w.peers == v.peers[key := w.peers[key]] && w.mesh == v.mesh
  {
    hide Decode, FormatIP, NextOffset, Apply;
    FullIff(n, v);
  }

  /** The other calls: which error, and when there is none. */
  lemma OtherAnswers(n: Net, v: View, op: Op)
    requires n.Valid() && Hosts(n, v.peers) && !op.AddPeer?
    ensures var (w, r) := Step(n, v, op);
      && (r.Failed? ==> w == v)
      && match op
        case RemovePeer(key, fails) =>
          r == if Decode(key).None? then Failed(InvalidKey) else if fails then Failed(DeviceError) else Done
        case UpdatePeer(key, _, fails) =>
          r == if Decode(key).None? then Failed(InvalidKey) else if key !in v.peers then Failed(PeerNotFound)
               else if fails then Failed(DeviceError) else Done
        case AddMeshIP(key, ip, fails) =>
          r == if Decode(key).None? then Failed(InvalidKey) else if key !in v.peers then Failed(PeerNotFound)
               else if ParseIP(ip).None? then Failed(InvalidMeshIP) else if fails then Failed(DeviceError) else Done
        case RemoveMeshIP(key, fails) =>
          r == if key !in v.mesh then Done else if Decode(key).None? then Failed(InvalidKey)
               else if key !in v.peers then Failed(PeerNotFound) else if fails then Failed(DeviceError) else Done
        case _ => true
  {
    hide Decode, ParseIP, Apply, KeyOf;
  }

  // ---- What the calls leave on the device ----

  /** The other peers are as they were, but for one address. */
  ghost predicate OthersLose(before: Dev, after: Dev, k: Key, taken: set<IPNet>) {
    forall l | l in before && l != k ::
      l in after && after[l].allowed == before[l].allowed - taken && after[l].keepalive == before[l].keepalive
  }

  ghost predicate OthersSame(before: Dev, after: Dev, k: Key) {
    forall l | l in before && l != k :: l in after && after[l] == before[l]
  }

  /** In a consistent manager nobody but the peer itself has its pool address, and nobody has a free one. */
  lemma OwnAlone(n: Net, v: View, o: nat, l: Key)
    requires n.Valid() && Consistent(n, v) && l in v.dev && n.baseIP + o < 0x1_0000_0000 && o <= n.maxHost
    requires forall s | s in v.peers && v.peers[s] == o :: KeyOf(s) != l
    ensures Host(n.baseIP + o) !in v.dev[l].allowed
  {
    hide Decode, KeyOf, ParseIP, OneText, Injective, Owned;
    var s :| s in v.peers && KeyOf(s) == l;
    assert PeerAgrees(n, v, s);
  }

  lemma KnownKeys(n: Net, v: View, s: string)
    requires n.Valid() && Consistent(n, v) && s in v.peers
    ensures Decode(s).Some? && KeyOf(s) in v.dev && 2 <= v.peers[s] < n.maxHost && n.baseIP + v.peers[s] < 0x1_0000_0000
    ensures Host(n.baseIP + v.peers[s]) in v.dev[KeyOf(s)].allowed
    ensures forall l | l in v.dev && l != KeyOf(s) :: Host(n.baseIP + v.peers[s]) !in v.dev[l].allowed
  {
    hide Decode, KeyOf, ParseIP;
    assert PeerAgrees(n, v, s);
    forall l | l in v.dev && l != KeyOf(s) ensures Host(n.baseIP + v.peers[s]) !in v.dev[l].allowed {
      forall t | t in v.peers && v.peers[t] == v.peers[s] ensures KeyOf(t) != l { assert Distinct(v.peers, s, t); }
      OwnAlone(n, v, v.peers[s], l);
    }
  }

  /** AddPeer of a new key: one peer more, with the new address alone and the keepalive given. */
  lemma AddedPeer(n: Net, v: View, key: string, keepalive: Interval)
    requires n.Valid() && Consistent(n, v) && Hosts(n, v.peers)
    requires Step(n, v, AddPeer(key, keepalive, false)).1.Address? && Decode(key).Some? && KeyOf(key) !in v.dev
    ensures var w := Step(n, v, AddPeer(key, keepalive, false)).0;
      && key in w.peers && n.baseIP + w.peers[key] < 0x1_0000_0000
      && w.dev.Keys == v.dev.Keys + {KeyOf(key)}
      && w.dev[KeyOf(key)] == DevPeer({Host(n.baseIP + w.peers[key])}, keepalive)
      && OthersSame(v.dev, w.dev, KeyOf(key))
  {
    hide Decode, KeyOf, ParseIP, FormatIP, NextOffset, Consistent, Net.Valid, Hosts;
    var o := NextOffset(Taken(v), n.maxHost).value;
    FreeOffset(n, v);
    forall l | l in v.dev ensures Host(n.baseIP + o) !in v.dev[l].allowed { OwnAlone(n, v, o, l); }
    AppliedPeers(v.dev, Change(KeyOf(key), false, false, {n.At(o)}, Some(keepalive)));
  }

  lemma FreeOffset(n: Net, v: View)
    requires n.Valid() && Hosts(n, v.peers) && NextOffset(Taken(v), n.maxHost).Some?
    ensures var o := NextOffset(Taken(v), n.maxHost).value;
      o < n.maxHost && n.baseIP + o < 0x1_0000_0000 && forall s | s in v.peers :: v.peers[s] != o
  {
    hide NextOffset;
    FullIff(n, v);
  }

  /** A change, read off peer by peer. */
  lemma AppliedPeers(dev: Dev, c: PeerConfig)
    requires !c.remove && (c.updateOnly ==> c.key in dev)
    ensures Apply(dev, c).Keys == dev.Keys + {c.key}
    ensures var was := if c.key in dev then dev[c.key] else DevPeer({}, 0);
      Apply(dev, c)[c.key] == DevPeer((if c.replaceAllowed then {} else was.allowed) + c.allowed,
                                      if c.keepalive.Some? then c.keepalive.value else was.keepalive)
    ensures forall l | l in dev && l != c.key :: Apply(dev, c)[l] == DevPeer(dev[l].allowed - c.allowed, dev[l].keepalive)
  {}

  /** RemovePeer: exactly that key goes from the device, and exactly that text from the peers. */
  lemma RemovedPeer(n: Net, v: View, key: string)
    requires n.Valid() && Hosts(n, v.peers) && Decode(key).Some?
    ensures var w := Step(n, v, RemovePeer(key, false)).0;
      && w.dev.Keys == v.dev.Keys - {KeyOf(key)} && OthersSame(v.dev, w.dev, KeyOf(key))
      && key !in w.peers && (forall s | s in v.peers && s != key :: s in w.peers && w.peers[s] == v.peers[s])
      && w.peers.Keys <= v.peers.Keys && w.mesh == v.mesh
  {
    hide Decode, KeyOf;
  }

  /** UpdatePeer: the new keepalive, and nothing else. */
  lemma UpdatedPeer(n: Net, v: View, key: string, keepalive: Interval)
    requires n.Valid() && Consistent(n, v) && Hosts(n, v.peers) && key in v.peers && Decode(key).Some?
    ensures var w := Step(n, v, UpdatePeer(key, keepalive, false)).0;
      && w.peers == v.peers && w.mesh == v.mesh && w.dev.Keys == v.dev.Keys && KeyOf(key) in v.dev
      && w.dev[KeyOf(key)] == DevPeer(v.dev[KeyOf(key)].allowed, keepalive)
      && OthersSame(v.dev, w.dev, KeyOf(key))
  {
    hide Decode, KeyOf, ParseIP, Consistent, Net.Valid, Hosts;
    KnownKeys(n, v, key);
    InNet(n, v, key);
    var own := {n.At(v.peers[key])};
    AppliedPeers(v.dev, Change(KeyOf(key), true, false, own, Some(keepalive)));
    assert v.dev[KeyOf(key)].allowed + own == v.dev[KeyOf(key)].allowed;
    forall l | l in v.dev && l != KeyOf(key) ensures v.dev[l].allowed - own == v.dev[l].allowed {}
  }

  lemma InNet(n: Net, v: View, key: string)
    requires n.Valid() && Hosts(n, v.peers) && key in v.peers
    ensures n.baseIP + v.peers[key] < 0x1_0000_0000 && !InMesh(n.baseIP + v.peers[key])
  {}

  /**
   * AddMeshIP: the peer's allowed IPs are exactly its pool address and the mesh address, which no
   * other peer has any more; keepalives and everything else stay.
   */
  lemma MeshedPeer(n: Net, v: View, key: string, ip: string)
    requires n.Valid() && Consistent(n, v) && Hosts(n, v.peers) && key in v.peers && Decode(key).Some? && ParseIP(ip).Some?
    ensures var (w, r) := Step(n, v, AddMeshIP(key, ip, false));
      && r == Done && w.peers == v.peers && w.mesh == v.mesh[key := ip] && w.dev.Keys == v.dev.Keys && KeyOf(key) in v.dev
      && n.baseIP + v.peers[key] < 0x1_0000_0000
      && w.dev[KeyOf(key)].allowed == {Host(n.baseIP + v.peers[key]), Host(ParseIP(ip).value)}
      && w.dev[KeyOf(key)].keepalive == v.dev[KeyOf(key)].keepalive
      && OthersLose(v.dev, w.dev, KeyOf(key), {Host(ParseIP(ip).value)})
      && forall l | l in w.dev && l != KeyOf(key) :: Host(ParseIP(ip).value) !in w.dev[l].allowed
  {
    hide Decode, KeyOf, ParseIP, Consistent, Net.Valid, Hosts;
    KnownKeys(n, v, key);
    InNet(n, v, key);
    var own, mesh := n.At(v.peers[key]), Host(ParseIP(ip).value);
    AppliedPeers(v.dev, Change(KeyOf(key), true, true, {own, mesh}, None));
    forall l | l in v.dev && l != KeyOf(key) ensures v.dev[l].allowed - {own, mesh} == v.dev[l].allowed - {mesh} {}
  }

  /** RemoveMeshIP of a recorded entry: the pool address alone is left, and the entry is gone. */
  lemma UnmeshedPeer(n: Net, v: View, key: string)
    requires n.Valid() && Consistent(n, v) && Hosts(n, v.peers) && key in v.peers && Decode(key).Some? && key in v.mesh
    ensures var w := Step(n, v, RemoveMeshIP(key, false)).0;
      && w.peers == v.peers && w.mesh == v.mesh - {key} && w.dev.Keys == v.dev.Keys && KeyOf(key) in v.dev
      && n.baseIP + v.peers[key] < 0x1_0000_0000
      && w.dev[KeyOf(key)] == DevPeer({Host(n.baseIP + v.peers[key])}, v.dev[KeyOf(key)].keepalive)
      && OthersSame(v.dev, w.dev, KeyOf(key))
  {
    hide Decode, KeyOf, ParseIP, Consistent, Net.Valid, Hosts;
    KnownKeys(n, v, key);
    InNet(n, v, key);
    var own := {n.At(v.peers[key])};
    AppliedPeers(v.dev, Change(KeyOf(key), true, true, own, None));
    forall l | l in v.dev && l != KeyOf(key) ensures v.dev[l].allowed - own == v.dev[l].allowed {}
  }

  // ---- How long a mesh IP stays routed ----

  /**
   * A call takes the mesh IP of peer s away: it drops or empties the peer, replaces its allowed IPs
   * under another text, or gives the address to another peer.
   */
  ghost predicate LosesRoute(n: Net, v: View, op: Op, s: string)
    requires n.Valid() && Hosts(n, v.peers) && IsRouted(v, s)
  {
    var k, a := KeyOf(s), Host(ParseIP(v.mesh[s]).value);
    !Step(n, v, op).1.Failed? &&
    match op
    case AddPeer(t, _, _) =>
      KeyOf(t) != k && exists o: nat :: IsLowestFree(n, v, o) && a == Host(n.baseIP + o)
    case RemovePeer(t, _) => KeyOf(t) == k
    case UpdatePeer(t, _, _) => KeyOf(t) != k && KeyOf(t) in v.dev && a == Host(n.baseIP + v.peers[t])
    case AddMeshIP(t, ip, _) =>
      && t != s
      && var given := {Host(n.baseIP + v.peers[t]), Host(ParseIP(ip).value)};
      if KeyOf(t) == k then a !in given else KeyOf(t) in v.dev && a in given
    case RemoveMeshIP(t, _) =>
      && t in v.mesh
      && (t == s || if KeyOf(t) == k then a != Host(n.baseIP + v.peers[t])
                    else KeyOf(t) in v.dev && a == Host(n.baseIP + v.peers[t]))
  }

  ghost predicate IsLowestFree(n: Net, v: View, o: nat) {
    FreeHost(n, v, o) && n.baseIP + o < 0x1_0000_0000 && forall p: nat | p < o :: !FreeHost(n, v, p)
  }

  lemma AddGivesLowest(n: Net, v: View, op: Op)
    requires n.Valid() && Hosts(n, v.peers) && op.AddPeer? && !Step(n, v, op).1.Failed?
    ensures var o := NextOffset(Taken(v), n.maxHost).value;
      IsLowestFree(n, v, o) && forall p: nat | IsLowestFree(n, v, p) :: p == o
  {
    hide Decode, NextOffset, Apply, FormatIP;
    FullIff(n, v);
    var o := NextOffset(Taken(v), n.maxHost).value;
    forall p: nat | IsLowestFree(n, v, p) ensures p == o {}
  }

  /** One call leaves a routed mesh entry routed, whatever state the manager is in, exactly if it is none of these. */
  lemma RouteKeptIff(n: Net, v: View, op: Op, s: string)
    requires n.Valid() && Hosts(n, v.peers) && IsRouted(v, s)
    ensures IsRouted(Step(n, v, op).0, s) <==> !LosesRoute(n, v, op, s)
  {
    hide Decode, KeyOf, ParseIP, FormatIP, NextOffset, FreeHost, Net.Valid, Apply;
    if !Step(n, v, op).1.Failed? && (op.RemoveMeshIP? ==> op.key in v.mesh) {
      match op
      case AddPeer(t, ka, _) =>
        AddGivesLowest(n, v, op);
        AppliedPeers(v.dev, Change(KeyOf(t), false, false, {Host(n.baseIP + NextOffset(Taken(v), n.maxHost).value)}, Some(ka)));
      case RemovePeer(t, _) => RemovedPeer(n, v, t);
      case _ => ChangeKeepsRouteIff(n, v, op, s);
    }
  }

  lemma ChangeKeepsRouteIff(n: Net, v: View, op: Op, s: string)
    requires n.Valid() && Hosts(n, v.peers) && IsRouted(v, s) && !op.AddPeer? && !op.RemovePeer?
    requires !Step(n, v, op).1.Failed? && (op.RemoveMeshIP? ==> op.key in v.mesh)
    ensures IsRouted(Step(n, v, op).0, s) <==> !LosesRoute(n, v, op, s)
  {
    hide Decode, KeyOf, ParseIP, FormatIP;
  }

  /** In a consistent manager: removing the peer or its mesh IP, or giving the address to another peer. */
  lemma LosesIff(n: Net, v: View, op: Op, s: string)
    requires n.Valid() && Consistent(n, v) && Hosts(n, v.peers) && IsRouted(v, s)
    ensures LosesRoute(n, v, op, s) <==>
      !Step(n, v, op).1.Failed? &&
      match op
      case RemovePeer(t, _) => Decode(t).Some? && KeyOf(t) == KeyOf(s)
      case AddMeshIP(t, ip, _) => t != s && ParseIP(ip) == ParseIP(v.mesh[s])
      case RemoveMeshIP(t, _) => t == s
      case _ => false
  {
    hide Decode, KeyOf, ParseIP, FormatIP, NextOffset, FreeHost, Apply, Consistent, Net.Valid, Hosts, IsRouted;
    RoutedFacts(n, v, s);
    if !Step(n, v, op).1.Failed? {
      if op.AddPeer? {
        forall o: nat | IsLowestFree(n, v, o) ensures n.baseIP + o != ParseIP(v.mesh[s]).value { RoutedInMesh(n, v, s, o); }
      } else if op.key in v.peers {
        KnownKeys(n, v, op.key);
        RoutedInMesh(n, v, s, v.peers[op.key]);
        if op.key != s { OtherKey(v.peers, op.key, s); }
      }
    }
  }

  lemma RoutedFacts(n: Net, v: View, s: string)
    requires n.Valid() && Consistent(n, v) && IsRouted(v, s)
    ensures s in v.peers && s in v.mesh && Decodable(v.peers) && OneText(v.peers)
    ensures Decode(s).Some? && KeyOf(s) in v.dev && ParseIP(v.mesh[s]).Some?
  {
    hide Decode, KeyOf, ParseIP;
  }

  lemma RoutedInMesh(n: Net, v: View, s: string, o: nat)
    requires n.Valid() && Consistent(n, v) && IsRouted(v, s) && (IsLowestFree(n, v, o) || o <= n.maxHost)
    ensures n.baseIP + o < 0x1_0000_0000 && n.baseIP + o != ParseIP(v.mesh[s]).value
  {
    hide Decode, KeyOf, ParseIP;
  }

  ghost predicate RoutedThroughout(n: Net, v: View, acts: seq<Action>, restarts: bool, s: string)
    requires n.Valid() && Hosts(n, v.peers)
    decreases |acts|
  {
    IsRouted(v, s) && (acts == [] || RoutedThroughout(n, ActionStep(n, v, acts[0], restarts).0, acts[1..], restarts, s))
  }

  ghost predicate NeverLost(n: Net, v: View, acts: seq<Action>, restarts: bool, s: string)
    requires n.Valid() && Hosts(n, v.peers)
    decreases |acts|
  {
    acts == [] ||
    (&& (acts[0].Call? && IsRouted(v, s) ==> !LosesRoute(n, v, acts[0].op, s))
     && NeverLost(n, ActionStep(n, v, acts[0], restarts).0, acts[1..], restarts, s))
  }

  /** A mesh IP once routed stays routed throughout a run, restarts included, exactly if no call takes it away at its turn. */
  lemma {:induction false} RoutedThroughoutIff(n: Net, v: View, acts: seq<Action>, restarts: bool, s: string)
    requires n.Valid() && Hosts(n, v.peers) && IsRouted(v, s)
    ensures RoutedThroughout(n, v, acts, restarts, s) <==> NeverLost(n, v, acts, restarts, s)
    decreases |acts|
  {
    hide Step, IsRouted, LosesRoute, Reloaded;
    if acts != [] {
      if acts[0].Call? { RouteKeptIff(n, v, acts[0].op, s); } else { ReloadKeepsRoute(v, s); }
      var next := ActionStep(n, v, acts[0], restarts).0;
      if IsRouted(next, s) { RoutedThroughoutIff(n, next, acts[1..], restarts, s); }
    }
  }

  lemma ReloadKeepsRoute(v: View, s: string)
    requires IsRouted(v, s)
    ensures IsRouted(Reloaded(v), s)
  {
    hide Decode, KeyOf, ParseIP;
  }

  /** A successful AddMeshIP routes the address, whatever state the manager is in, exactly if the key is on the device. */
  lemma MeshIsRouted(n: Net, v: View, key: string, ip: string)
    requires n.Valid() && Hosts(n, v.peers) && Step(n, v, AddMeshIP(key, ip, false)).1 == Done
    ensures Decode(key).Some?
    ensures IsRouted(Step(n, v, AddMeshIP(key, ip, false)).0, key) <==> KeyOf(key) in v.dev
  {
    hide Decode, KeyOf, ParseIP, FormatIP;
  }
}
