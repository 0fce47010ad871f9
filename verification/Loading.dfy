/** What loadExistingPeers of internal/wg/manager.go makes of any device, in the order the kernel lists it. */
module Loading {
  import opened Common
  import opened Base64
  import opened Ipv4
  import opened IpPool
  import opened Device
  import opened ManagerSpec
  import opened Restart

  /** peerIPs, meshIPs and the pool's assigned offsets. */
  datatype Loaded = Loaded(peers: map<string, string>, mesh: map<string, string>, taken: set<nat>)

  function Nothing(): Loaded { Loaded(map[], map[], {0, 1}) }

  /** The offset Reserve marks for an address; an address outside the network is ignored. */
  function Reserved(n: Net, ip: uint32): set<nat> {
    var o := TextOffset(n.baseIP, n.maxHost, FormatIP(ip));
    if o.Some? then {o.value} else {}
  }

  function LoadNet(n: Net, st: Loaded, pubkey: string, aip: IPNet): Loaded {
    if InMesh(aip.ip) then st.(mesh := st.mesh[pubkey := FormatIP(aip.ip)])
    else st.(peers := st.peers[pubkey := FormatIP(aip.ip) + "/32"], taken := st.taken + Reserved(n, aip.ip))
  }

  function LoadNets(n: Net, st: Loaded, pubkey: string, allowed: seq<IPNet>): Loaded {
    if allowed == [] then st
    else LoadNet(n, LoadNets(n, st, pubkey, allowed[..|allowed| - 1]), pubkey, allowed[|allowed| - 1])
  }

  function LoadList(n: Net, list: seq<PeerConf>): Loaded {
    if list == [] then Nothing()
    else
      var last := list[|list| - 1];
      LoadNets(n, LoadList(n, list[..|list| - 1]), Encode(last.key), last.allowed)
  }

  lemma LoadListAppend(n: Net, list: seq<PeerConf>, p: PeerConf)
    ensures LoadList(n, list + [p]) == LoadNets(n, LoadList(n, list), Encode(p.key), p.allowed)
  {
    hide Encode, LoadNets;
    assert (list + [p])[..|list|] == list;
  }

  lemma LoadNetsAppend(n: Net, st: Loaded, pubkey: string, allowed: seq<IPNet>, a: IPNet)
    ensures LoadNets(n, st, pubkey, allowed + [a]) == LoadNet(n, LoadNets(n, st, pubkey, allowed), pubkey, a)
  {
    hide LoadNet;
    assert (allowed + [a])[..|allowed|] == allowed;
  }

  // ---- A device that agrees with a manager ----

  /** The part of `m` whose keys the device list has named so far. */
  ghost function Part<T>(m: map<string, T>, named: set<Key>): map<string, T> {
    map s | s in m && Decode(s).Some? && KeyOf(s) in named :: m[s]
  }

  lemma PartGrows<T>(m: map<string, T>, named: set<Key>, s: string)
    requires (forall t | t in m :: IsKeyText(t)) && IsKeyText(s)
    ensures Part(m, named + {KeyOf(s)}) == if s in m then Part(m, named)[s := m[s]] else Part(m, named)
  {
    hide IsKeyText, KeyOf, Decode;
    forall t | t in m && KeyOf(t) == KeyOf(s) ensures t == s { KeyInjective(t, s); }
  }

  lemma PartAll<T>(m: map<string, T>, peers: map<string, nat>)
    requires Decodable(peers) && Canonical(peers) && m.Keys <= peers.Keys
    ensures (forall s | s in m :: IsKeyText(s)) && Part(m, PeerKeys(peers)) == m
  {
    hide IsKeyText, KeyOf, Decode;
    forall s | s in m ensures s in peers && KeyOf(s) in PeerKeys(peers) {}
  }

  lemma PartNone<T>(m: map<string, T>)
    ensures Part(m, Keys([])) == map[]
  {
    hide KeyOf, Decode;
  }

  lemma ListedPeer(list: seq<PeerConf>, p: PeerConf, dev: Dev)
    requires IsListing(list, dev) && p in list
    ensures p.key in dev && Nets(p.allowed) == dev[p.key].allowed
  {
    assert p.key in Keys(list);
  }

  lemma AllListed(list: seq<PeerConf>, dev: Dev)
    requires IsListing(list, dev)
    ensures Keys(list) == dev.Keys
  {}

  lemma PartFresh(peers: map<string, nat>, list: seq<PeerConf>, i: nat, s: string, dev: Dev)
    requires Canonical(peers) && s in peers && i < |list| && KeyOf(s) == list[i].key
    requires IsListing(list, dev)
    ensures s !in Part(peers, Keys(list[..i]))
  {
    hide IsKeyText, KeyOf, Decode;
  }

  /** What one allowed IP of an agreeing peer is. */
  ghost predicate NetOf(n: Net, v: View, s: string, o: nat, a: IPNet)
    requires n.baseIP + o < 0x1_0000_0000
  {
    if InMesh(a.ip) then s in v.mesh && FormatIP(a.ip) == v.mesh[s] else a == n.At(o)
  }

  lemma NetFacts(n: Net, v: View, s: string, p: PeerConf, a: IPNet)
    requires n.Valid() && Agree(n, v) && s in v.peers
    requires KeyOf(s) == p.key && Nets(p.allowed) == v.dev[p.key].allowed && a in p.allowed
    requires n.baseIP + v.peers[s] < 0x1_0000_0000
    ensures NetOf(n, v, s, v.peers[s], a) && (InMesh(a.ip) <==> IsMeshOf(v, s, a))
  {
    hide ParseIP, FormatIP, IsKeyText, KeyOf, Decode, OneText, Injective, Hosts;
    OwnFacts(n, v, s);
    assert PeerAgrees(n, v, s) && a in Nets(p.allowed);
    if InMesh(a.ip) { FormatParse(v.mesh[s]); }
  }

  lemma RoutedIff(n: Net, v: View, s: string, p: PeerConf)
    requires n.Valid() && Agree(n, v) && s in v.peers
    requires KeyOf(s) == p.key && Nets(p.allowed) == v.dev[p.key].allowed
    requires n.baseIP + v.peers[s] < 0x1_0000_0000
    ensures s in Routed(v) <==> exists a :: a in p.allowed && IsMeshOf(v, s, a)
    ensures n.At(v.peers[s]) in p.allowed
  {
    hide ParseIP, FormatIP, IsKeyText, KeyOf, Decode, OneText, Injective, Hosts;
    assert PeerAgrees(n, v, s);
    assert n.At(v.peers[s]) in Nets(p.allowed);
    if s in Routed(v) {
      var a := Host(ParseIP(v.mesh[s]).value);
      assert a in Nets(p.allowed) && IsMeshOf(v, s, a);
    }
    if a :| a in p.allowed && IsMeshOf(v, s, a) {
      assert a in Nets(p.allowed);
    }
  }

  lemma OwnReserved(n: Net, o: nat)
    requires n.baseIP + n.maxHost < 0x1_0000_0000 && o <= n.maxHost
    ensures Reserved(n, n.baseIP + o) == {o}
  {
    hide FormatIP, TextOffset;
    OffsetRoundTrip(n.baseIP, n.maxHost, o);
  }

  /** A list of such IPs records the own address if it is there, and the mesh IP if one is there. */
  lemma {:induction false} NetsLoaded(n: Net, v: View, s: string, o: nat, st: Loaded, allowed: seq<IPNet>)
    requires n.baseIP + n.maxHost < 0x1_0000_0000 && o <= n.maxHost && !InMesh(n.baseIP + o)
    requires forall a | a in allowed :: NetOf(n, v, s, o, a)
    ensures LoadNets(n, st, s, allowed) == Recorded(n, v, s, o, st, allowed)
    decreases |allowed|
  {
    hide FormatIP, Reserved, HostText, InMesh;
    if allowed != [] {
      var k := |allowed| - 1;
      assert allowed[k] in allowed && forall a | a in allowed[..k] :: a in allowed;
      NetsLoaded(n, v, s, o, st, allowed[..k]);
      assert allowed == allowed[..k] + [allowed[k]];
      RecordedAppend(n, v, s, o, st, allowed[..k], allowed[k]);
    }
  }

  lemma RecordedAppend(n: Net, v: View, s: string, o: nat, st: Loaded, allowed: seq<IPNet>, a: IPNet)
    requires n.baseIP + n.maxHost < 0x1_0000_0000 && o <= n.maxHost && !InMesh(n.baseIP + o)
    requires (forall b | b in allowed :: NetOf(n, v, s, o, b)) && NetOf(n, v, s, o, a)
    ensures LoadNet(n, Recorded(n, v, s, o, st, allowed), s, a) == Recorded(n, v, s, o, st, allowed + [a])
  {
    hide FormatIP, Reserved, HostText, InMesh;
    OwnReserved(n, o);
    OwnText32(n, o);
    assert forall b :: b in allowed + [a] <==> b in allowed || b == a;
  }

  lemma OwnText32(n: Net, o: nat)
    requires n.baseIP + o < 0x1_0000_0000
    ensures HostText(n.baseIP, o) == FormatIP(n.baseIP + o) + "/32"
  {}

  ghost function Recorded(n: Net, v: View, s: string, o: nat, st: Loaded, allowed: seq<IPNet>): Loaded
    requires n.baseIP + o < 0x1_0000_0000
    requires forall a | a in allowed :: NetOf(n, v, s, o, a)
  {
    var own, mesh := n.At(o) in allowed, exists a :: a in allowed && InMesh(a.ip);
    Loaded(if own then st.peers[s := HostText(n.baseIP, o)] else st.peers,
           if mesh && s in v.mesh then st.mesh[s := v.mesh[s]] else st.mesh,
           if own then st.taken + {o} else st.taken)
  }

  lemma PeerLoaded(n: Net, v: View, s: string, p: PeerConf, st: Loaded)
    requires n.Valid() && Agree(n, v) && s in v.peers && KeyOf(s) == p.key && Nets(p.allowed) == v.dev[p.key].allowed
    ensures IsKeyText(s) && Encode(p.key) == s && v.peers[s] < n.maxHost && n.baseIP + v.peers[s] < 0x1_0000_0000
    ensures LoadNets(n, st, s, p.allowed) ==
      Loaded(st.peers[s := HostText(n.baseIP, v.peers[s])],
             if s in Routed(v) then st.mesh[s := v.mesh[s]] else st.mesh,
             st.taken + {v.peers[s]})
  {
    hide ParseIP, FormatIP, Decode, Encode, DropBreaks, Consistent, Routed, IsMeshOf, LoadNets, HostText, Nets, NetOf;
    OwnFacts(n, v, s);
    forall a | a in p.allowed ensures NetOf(n, v, s, v.peers[s], a) && (InMesh(a.ip) <==> IsMeshOf(v, s, a)) {
      NetFacts(n, v, s, p, a);
    }
    RoutedIff(n, v, s, p);
    RoutedIs(v, s);
    assert s in Routed(v) <==> exists a :: a in p.allowed && InMesh(a.ip);
    NetsLoaded(n, v, s, v.peers[s], st, p.allowed);
  }

  lemma OwnFacts(n: Net, v: View, s: string)
    requires n.Valid() && Agree(n, v) && s in v.peers
    ensures v.peers[s] < n.maxHost && n.baseIP + v.peers[s] < 0x1_0000_0000 && !InMesh(n.baseIP + v.peers[s])
  {
    hide ParseIP, Decode, KeyOf, FormatIP, IsKeyText;
  }

  /** The address text of each peer. */
  ghost predicate TextsOf(n: Net, texts: map<string, string>, offsets: map<string, nat>) {
    && texts.Keys == offsets.Keys
    && forall s | s in texts ::
      n.baseIP + offsets[s] < 0x1_0000_0000 && texts[s] == HostText(n.baseIP, offsets[s])
  }

  lemma ValuesAdd(m: map<string, nat>, s: string, o: nat)
    requires s !in m
    ensures m[s := o].Values == m.Values + {o}
  {
    forall x | x in m.Values ensures x in m[s := o].Values {
      var t :| t in m && m[t] == x;
      assert m[s := o][t] == x;
    }
    assert m[s := o][s] == o;
  }

  /** The first i entries of a listing. */
  lemma {:induction false} PrefixLoaded(n: Net, v: View, list: seq<PeerConf>, i: nat)
    requires n.Valid() && Agree(n, v) && IsListing(list, v.dev) && i <= |list|
    ensures var st, done := LoadList(n, list[..i]), Part(v.peers, Keys(list[..i]));
      TextsOf(n, st.peers, done) && st.mesh == Part(Routed(v), Keys(list[..i])) && st.taken == {0, 1} + done.Values
  {
    hide ParseIP, Decode, KeyOf, IsKeyText, Encode, HostText, Consistent, IsListing, Nets, Part, LoadNets, LoadList, Keys, Routed;
    if i == 0 {
      assert list[..0] == [];
      StartLoaded(n, v);
    } else {
      var p := list[i - 1];
      PrefixLoaded(n, v, list, i - 1);
      assert list[..i] == list[..i - 1] + [p];
      LoadListAppend(n, list[..i - 1], p);
      KeysAppend(list[..i - 1], p);
      ListedPeer(list, p, v.dev);
      var s := TextOnDevice(n, v, p.key);
      PeerLoaded(n, v, s, p, LoadList(n, list[..i - 1]));
      RoutedTexts(v);
      PartGrows(v.peers, Keys(list[..i - 1]), s);
      PartGrows(Routed(v), Keys(list[..i - 1]), s);
      PartFresh(v.peers, list, i - 1, s, v.dev);
      RoutedIs(v, s);
      ValuesAdd(Part(v.peers, Keys(list[..i - 1])), s, v.peers[s]);
    }
  }

  lemma StartLoaded(n: Net, v: View)
    ensures LoadList(n, []) == Nothing() && Part(v.peers, Keys([])) == map[] && Part(Routed(v), Keys([])) == map[]
  {
    PartNone(v.peers);
    PartNone(Routed(v));
  }

  lemma TextOnDevice(n: Net, v: View, k: Key) returns (s: string)
    requires Agree(n, v) && k in v.dev
    ensures s in v.peers && Decode(s).Some? && KeyOf(s) == k
    ensures forall t | t in v.peers :: IsKeyText(t)
  {
    hide ParseIP, Decode, KeyOf, IsKeyText;
    s :| s in v.peers && KeyOf(s) == k;
  }

  lemma RoutedTexts(v: View)
    requires Canonical(v.peers)
    ensures forall t | t in Routed(v) :: IsKeyText(t)
  {
    hide ParseIP, Decode, KeyOf, IsKeyText;
  }

  lemma RoutedIs(v: View, s: string)
    ensures s in Routed(v) ==> s in v.mesh && Routed(v)[s] == v.mesh[s]
  {
    hide ParseIP, Decode, KeyOf;
  }

  /** An agreeing device is loaded back to its peers, their offsets and the routed mesh entries, in any order. */
  lemma LoadsAgreeing(n: Net, v: View, list: seq<PeerConf>)
    requires n.Valid() && Agree(n, v) && IsListing(list, v.dev)
    ensures var st := LoadList(n, list);
      TextsOf(n, st.peers, v.peers) && st.mesh == Routed(v) && st.taken == Taken(v)
  {
    hide ParseIP, Decode, KeyOf, IsKeyText, Encode, IsListing, Part, LoadList, Routed, TextsOf, Canonical, OneText, Owned,
      PeerAgrees, Hosts, Injective, MeshTexts;
    PrefixLoaded(n, v, list, |list|);
    assert list[..|list|] == list;
    AllListed(list, v.dev);
    RoutedPeers(v);
    PartAll(v.peers, v.peers);
    PartAll(Routed(v), v.peers);
  }

  // ---- A device peer with two addresses of the pool ----

  lemma {:induction false} NetsReserve(n: Net, st: Loaded, pubkey: string, allowed: seq<IPNet>, at: set<nat>)
    requires n.Valid() && forall o | o in at :: o <= n.maxHost
    requires forall a | a in allowed :: exists o :: o in at && a == n.At(o)
    ensures LoadNets(n, st, pubkey, allowed).mesh == st.mesh
    ensures LoadNets(n, st, pubkey, allowed).peers.Keys == if allowed == [] then st.peers.Keys else st.peers.Keys + {pubkey}
    ensures LoadNets(n, st, pubkey, allowed).taken == st.taken + set o | o in at && n.At(o) in allowed
    decreases |allowed|
  {
    hide LoadNet, Net.Valid;
    InNetwork(n);
    if allowed != [] {
      var k := |allowed| - 1;
      assert allowed[k] in allowed && forall a | a in allowed[..k] :: a in allowed;
      NetsReserve(n, st, pubkey, allowed[..k], at);
      var o :| o in at && allowed[k] == n.At(o);
      assert allowed == allowed[..k] + [allowed[k]];
      OneMoreOffset(n, allowed[..k], o, at);
      LoadOwn(n, LoadNets(n, st, pubkey, allowed[..k]), pubkey, o);
    }
  }

  lemma InNetwork(n: Net)
    requires n.Valid()
    ensures n.baseIP + n.maxHost < 0x1_0000_0000
  {}

  /** An address of the network goes to peerIPs, and its offset to the pool. */
  lemma LoadOwn(n: Net, st: Loaded, pubkey: string, o: nat)
    requires n.Valid() && o <= n.maxHost
    ensures LoadNet(n, st, pubkey, n.At(o)).mesh == st.mesh
    ensures LoadNet(n, st, pubkey, n.At(o)).peers.Keys == st.peers.Keys + {pubkey}
    ensures LoadNet(n, st, pubkey, n.At(o)).taken == st.taken + {o}
  {
    hide FormatIP, Reserved;
    OwnReserved(n, o);
  }

  lemma OneMoreOffset(n: Net, allowed: seq<IPNet>, o: nat, at: set<nat>)
    requires n.Valid() && o in at && forall x | x in at :: x <= n.maxHost
    ensures (set x | x in at && n.At(x) in allowed + [n.At(o)]) == (set x | x in at && n.At(x) in allowed) + {o}
  {
    forall x | x in at ensures n.At(x) in allowed + [n.At(o)] <==> n.At(x) in allowed || x == o {}
  }

  /**
   * The device that enrolling a key under two texts leaves: a restart comes up with one entry and
   * two assigned offsets, so one address is lost to the pool.
   */
  lemma TwoAddressesLeak(n: Net, k: Key, o: nat, q: nat, dev: Dev, list: seq<PeerConf>)
    requires n.Valid() && 2 <= o < n.maxHost && 2 <= q < n.maxHost && o != q
    requires dev.Keys == {k} && dev[k].allowed == {n.At(o), n.At(q)} && IsListing(list, dev)
    ensures LoadList(n, list).peers.Keys == {Encode(k)} && LoadList(n, list).mesh == map[]
    ensures LoadList(n, list).taken == {0, 1, o, q}
  {
    hide Encode, FormatIP, LoadNets;
    OnlyOne(list, dev, k);
    var p := list[0];
    assert list == [] + [p];
    LoadListAppend(n, [], p);
    forall a | a in p.allowed ensures exists x :: x in {o, q} && a == n.At(x) {
      assert a in Nets(p.allowed);
    }
    assert n.At(o) in Nets(p.allowed) && n.At(q) in Nets(p.allowed);
    NetsReserve(n, Nothing(), Encode(k), p.allowed, {o, q});
  }

  lemma OnlyOne(list: seq<PeerConf>, dev: Dev, k: Key)
    requires IsListing(list, dev) && dev.Keys == {k}
    ensures |list| == 1 && list[0].key == k && Nets(list[0].allowed) == dev[k].allowed
  {
    assert k in Keys(list);
    forall i | 0 <= i < |list| ensures list[i].key == k {
      assert list[i] in list && list[i].key in Keys(list);
    }
    var second := if |list| > 1 then list[1].key else k;
    assert second == k == list[0].key;
    assert list[0] in list;
  }
}
