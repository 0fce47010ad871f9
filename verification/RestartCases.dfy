/** Runs that reach the two cases in which a restart, or a second text for a key, can be noticed. */
module RestartCases {
  import opened Common
  import opened Base64
  import opened Ipv4
  import opened IpPool
  import opened Device
  import opened ManagerSpec
  import opened Restart
  import Loading

  // ---- Two texts of one key ----

  lemma TakenAfter(peers: map<string, nat>, v: View, w: View, s: string, o: nat)
    requires v.peers == peers && w.peers == peers[s := o]
    ensures |Taken(w)| <= |Taken(v)| + 1
  {
    forall x | x in Taken(w) ensures x in Taken(v) + {o} {}
    SubsetCard(Taken(w), Taken(v) + {o});
  }

  /** The state after a successful AddPeer that got offset o. */
  ghost function Enrolled(n: Net, v: View, s: string, keepalive: Interval, o: nat): View
    requires Decode(s).Some? && n.baseIP + o < 0x1_0000_0000
  {
    View(v.peers[s := o], v.mesh, Apply(v.dev, Change(KeyOf(s), false, false, {n.At(o)}, Some(keepalive))))
  }

  /** With room in the pool and a new text, AddPeer succeeds with an offset nobody has. */
  lemma Enrolls(n: Net, v: View, s: string, keepalive: Interval) returns (o: nat)
    requires n.Valid() && Hosts(n, v.peers) && Decode(s).Some? && s !in v.peers && |Taken(v)| < n.maxHost
    ensures n.baseIP + o < 0x1_0000_0000 && forall t | t in v.peers :: v.peers[t] != o
    ensures Step(n, v, AddPeer(s, keepalive, false)) == (Enrolled(n, v, s, keepalive, o), Address(HostText(n.baseIP, o)))
    ensures |Taken(Enrolled(n, v, s, keepalive, o))| <= |Taken(v)| + 1
    ensures Hosts(n, Enrolled(n, v, s, keepalive, o).peers)
  {
    hide Decode, KeyOf, Apply, HostText, NextOffset, Hosts, Taken, ParseIP;
    Room(Taken(v), n.maxHost);
    o := NextOffset(Taken(v), n.maxHost).value;
    NewOffset(n, v);
    StepHosts(n, v, AddPeer(s, keepalive, false));
    forall t | t in v.peers ensures v.peers[t] != o { assert v.peers[t] in v.peers.Values; }
    TakenAfter(v.peers, v, Enrolled(n, v, s, keepalive, o), s, o);
  }

  lemma Room(a: set<nat>, maxHost: nat)
    requires |a| < maxHost
    ensures NextOffset(a, maxHost).Some?
  {}

  lemma EnrolledDevice(n: Net, v: View, s: string, keepalive: Interval, o: nat)
    requires Decode(s).Some? && n.baseIP + o < 0x1_0000_0000 && Owned(v.dev)
    ensures var d := Enrolled(n, v, s, keepalive, o).dev;
      && Owned(d) && d.Keys == v.dev.Keys + {KeyOf(s)}
      && d[KeyOf(s)].allowed == (if KeyOf(s) in v.dev then v.dev[KeyOf(s)].allowed else {}) + {n.At(o)}
  {
    hide Decode, KeyOf, Apply, Owned;
    ApplyEffect(v.dev, KeyOf(s), false, false, {n.At(o)}, Some(keepalive));
  }

  /** What the two additions leave. */
  ghost predicate TwoEntries(n: Net, v: View, b: View, s: string, t: string)
    requires Decode(s).Some?
  {
    && s in b.peers && t in b.peers && b.peers[s] != b.peers[t] && b.dev.Keys == v.dev.Keys + {KeyOf(s)}
    && n.baseIP + b.peers[s] < 0x1_0000_0000 && n.baseIP + b.peers[t] < 0x1_0000_0000
    && b.dev[KeyOf(s)].allowed == {n.At(b.peers[s]), n.At(b.peers[t])}
  }

  lemma TwoAdds(n: Net, v: View, s: string, t: string, keepalive: Interval)
    requires n.Valid() && Hosts(n, v.peers) && Owned(v.dev)
    requires Decode(s).Some? && Decode(t).Some? && KeyOf(s) == KeyOf(t) && s != t
    requires s !in v.peers && t !in v.peers && KeyOf(s) !in v.dev && |Taken(v)| + 1 < n.maxHost
    ensures TwoEntries(n, v, TwiceAdded(n, v, s, t, keepalive), s, t)
  {
    hide Decode, KeyOf, Apply, HostText, Owned, Hosts, Step, Taken, NextOffset;
    var o := Enrolls(n, v, s, keepalive);
    var a := Enrolled(n, v, s, keepalive, o);
    var q := Enrolls(n, a, t, keepalive);
    EnrolledDevice(n, v, s, keepalive, o);
    EnrolledDevice(n, a, t, keepalive, q);
    assert a.peers[s] == o;
  }

  /**
   * Enrolling one key under two texts: two entries with two addresses on one device peer; removing
   * one of them removes that peer from the device, and the other entry stays and is still served.
   */
  lemma TwoTextsOnePeer(n: Net, v: View, s: string, t: string, keepalive: Interval)
    requires n.Valid() && Hosts(n, v.peers) && Owned(v.dev)
    requires Decode(s).Some? && Decode(t).Some? && KeyOf(s) == KeyOf(t) && s != t
    requires s !in v.peers && t !in v.peers && KeyOf(s) !in v.dev && |Taken(v)| + 1 < n.maxHost
    ensures var b := TwiceAdded(n, v, s, t, keepalive);
      TwoEntries(n, v, b, s, t) && !Consistent(n, b)
    ensures var (c, r) := Step(n, TwiceAdded(n, v, s, t, keepalive), RemovePeer(s, false));
      && r == Done && t in c.peers && KeyOf(t) !in c.dev && !Consistent(n, c)
      && Hosts(n, c.peers) && Step(n, c, UpdatePeer(t, keepalive, false)).1 == Done
  {
    hide Decode, KeyOf, Apply, FormatIP, HostText, NextOffset, ParseIP, Owned, Hosts, TwiceAdded, Consistent;
    TwoAdds(n, v, s, t, keepalive);
    var b := TwiceAdded(n, v, s, t, keepalive);
    TwoTexts(n, b, s, t);
    StepHosts(n, b, RemovePeer(s, false));
    RemovesKey(n, b, s, t, keepalive);
    NotOnDevice(n, Step(n, b, RemovePeer(s, false)).0, t);
  }

  lemma TwoTexts(n: Net, b: View, s: string, t: string)
    requires s in b.peers && t in b.peers && s != t && Decode(s).Some? && Decode(t).Some? && KeyOf(s) == KeyOf(t)
    ensures !Consistent(n, b)
  {
    hide Decode, KeyOf;
    assert !SameKey(b.peers, s, t);
  }

  lemma RemovesKey(n: Net, b: View, s: string, t: string, keepalive: Interval)
    requires n.Valid() && Hosts(n, b.peers) && t in b.peers && s != t
    requires Decode(s).Some? && Decode(t).Some? && KeyOf(s) == KeyOf(t)
    ensures var (c, r) := Step(n, b, RemovePeer(s, false));
      && r == Done && t in c.peers && KeyOf(t) !in c.dev
      && Hosts(n, c.peers) && Step(n, c, UpdatePeer(t, keepalive, false)).1 == Done
  {
    hide Decode, KeyOf, FormatIP;
  }

  ghost function TwiceAdded(n: Net, v: View, s: string, t: string, keepalive: Interval): (b: View)
    requires n.Valid() && Hosts(n, v.peers)
    ensures Hosts(n, b.peers)
  {
    StepHosts(n, v, AddPeer(s, keepalive, false));
    var a := Step(n, v, AddPeer(s, keepalive, false)).0;
    StepHosts(n, a, AddPeer(t, keepalive, false));
    Step(n, a, AddPeer(t, keepalive, false)).0
  }

  lemma NotOnDevice(n: Net, c: View, t: string)
    requires t in c.peers && Decode(t).Some? && KeyOf(t) !in c.dev && Hosts(n, c.peers)
    ensures !Consistent(n, c)
  {
    if Consistent(n, c) { InKeys(c.peers, t); }
  }

  function ExampleNet(): Net { Net(0x0A08_0000, 255) }

  function EmptyView(): View { View(map[], map[], map[]) }

  /** On 10.8.0.0/24, for every key: its own text, and the text that differs in the two spare bits. */
  lemma SpareBitsRun(k: Key, keepalive: Interval)
    ensures var s, t := Encode(k), Encode(k[..30]) + LastFour(k[30], k[31], 1);
      && ExampleNet().Valid() && Decode(t) == Some(k) && s != t
      && var b := TwiceAdded(ExampleNet(), EmptyView(), s, t, keepalive);
      && s in b.peers && t in b.peers && b.peers[s] != b.peers[t] && b.dev.Keys == {k}
      && var c := Step(ExampleNet(), b, RemovePeer(s, false)).0;
      && t in c.peers && c.dev == map[]
  {
    hide Decode, Encode, Step, Consistent, LastFour, TwiceAdded, KeyOf;
    var s, t := Encode(k), Encode(k[..30]) + LastFour(k[30], k[31], 1);
    KeyTextRoundTrip(k);
    SpareBits(k, 1);
    EmptyRoom();
    TwoTextsOnePeer(ExampleNet(), EmptyView(), s, t, keepalive);
    OneLess(ExampleNet(), TwiceAdded(ExampleNet(), EmptyView(), s, t, keepalive), s);
  }

  /** A restart after the two additions: one entry, under the key's own text, and both addresses assigned. */
  lemma RestartLeaksAddress(k: Key, keepalive: Interval, list: seq<PeerConf>)
    requires var b := TwiceAdded(ExampleNet(), EmptyView(), Encode(k), Encode(k[..30]) + LastFour(k[30], k[31], 1), keepalive);
      IsListing(list, b.dev)
    ensures Loading.LoadList(ExampleNet(), list).peers.Keys == {Encode(k)}
    ensures |Loading.LoadList(ExampleNet(), list).taken| == 4
  {
    hide Decode, Encode, Step, Consistent, LastFour, TwiceAdded, KeyOf, IsListing, Loading.LoadList;
    var s, t := Encode(k), Encode(k[..30]) + LastFour(k[30], k[31], 1);
    KeyTextRoundTrip(k);
    SpareBits(k, 1);
    EmptyRoom();
    TwoTextsOnePeer(ExampleNet(), EmptyView(), s, t, keepalive);
    var b := TwiceAdded(ExampleNet(), EmptyView(), s, t, keepalive);
    Loading.TwoAddressesLeak(ExampleNet(), k, b.peers[s], b.peers[t], b.dev, list);
    FourOffsets(b.peers[s], b.peers[t]);
  }

  lemma FourOffsets(o: nat, q: nat)
    requires 2 <= o && 2 <= q && o != q
    ensures |{0, 1, o, q}| == 4
  {}

  lemma EmptyRoom()
    ensures ExampleNet().Valid() && |Taken(EmptyView())| == 2 && Owned(EmptyView().dev) && Hosts(ExampleNet(), EmptyView().peers)
  {
    assert EmptyView().peers.Values == {};
  }

  lemma OneLess(n: Net, b: View, s: string)
    requires n.Valid() && Hosts(n, b.peers) && Decode(s).Some? && b.dev.Keys == {KeyOf(s)}
    ensures Step(n, b, RemovePeer(s, false)).0.dev == map[]
  {
    hide Decode, KeyOf;
  }

  // ---- The forgotten mesh entry ----

  /** AddPeer, AddMeshIP, RemovePeer, restart, RemoveMeshIP of one key. */
  function ForgottenRun(s: string, ip: string, keepalive: Interval): seq<Action> {
    [Call(AddPeer(s, keepalive, false)), Call(AddMeshIP(s, ip, false)), Call(RemovePeer(s, false)), Restarted,
     Call(RemoveMeshIP(s, false))]
  }

  lemma FiveReplies(n: Net, v: View, a: Action, b: Action, c: Action, d: Action, e: Action, restarts: bool)
    requires n.Valid() && Hosts(n, v.peers)
    ensures var v1 := ActionStep(n, v, a, restarts).0;
      var v2 := ActionStep(n, v1, b, restarts).0;
      var v3 := ActionStep(n, v2, c, restarts).0;
      var v4 := ActionStep(n, v3, d, restarts).0;
      Replies(n, v, [a, b, c, d, e], restarts)[4] == ActionStep(n, v4, e, restarts).1
  {
    hide ActionStep, Replies;
    assert [a] + [b, c, d, e] == [a, b, c, d, e] && [b] + [c, d, e] == [b, c, d, e];
    assert [c] + [d, e] == [c, d, e] && [d] + [e] == [d, e] && [e] + [] == [e];
    var v1 := ActionStep(n, v, a, restarts).0;
    var v2 := ActionStep(n, v1, b, restarts).0;
    var v3 := ActionStep(n, v2, c, restarts).0;
    var v4 := ActionStep(n, v3, d, restarts).0;
    ReplyAfter(n, v, a, [b, c, d, e], restarts);
    ReplyAfter(n, v1, b, [c, d, e], restarts);
    ReplyAfter(n, v2, c, [d, e], restarts);
    ReplyAfter(n, v3, d, [e], restarts);
    ReplyAfter(n, v4, e, [], restarts);
  }

  /** The first reply of a run, and the others. */
  lemma ReplyAfter(n: Net, v: View, a: Action, rest: seq<Action>, restarts: bool)
    requires n.Valid() && Hosts(n, v.peers)
    ensures Replies(n, v, [a] + rest, restarts) ==
            [ActionStep(n, v, a, restarts).1] + Replies(n, ActionStep(n, v, a, restarts).0, rest, restarts)
  {
    hide ActionStep;
    assert ([a] + rest)[1..] == rest;
  }

  /** What the first three calls leave on an empty device: the stale mesh entry and nothing else. */
  lemma StaleEntry(n: Net, s: string, ip: string, keepalive: Interval)
    requires n.Valid() && n.maxHost >= 3 && Decode(s).Some? && ParseIP(ip).Some?
    ensures Hosts(n, EmptyView().peers)
    ensures var v1 := ActionStep(n, EmptyView(), Call(AddPeer(s, keepalive, false)), false).0;
      var v2 := ActionStep(n, v1, Call(AddMeshIP(s, ip, false)), false).0;
      ActionStep(n, v2, Call(RemovePeer(s, false)), false).0 == View(map[], map[s := ip], map[])
  {
    hide Decode, KeyOf, ParseIP, FormatIP, HostText, NextOffset, Apply;
    EmptyRoom();
    var o := Enrolls(n, EmptyView(), s, keepalive);
    OnePeer(map[], KeyOf(s), Change(KeyOf(s), false, false, {n.At(o)}, Some(keepalive)));
    MeshedAndRemoved(n, Enrolled(n, EmptyView(), s, keepalive, o), s, ip);
  }

  lemma MeshedAndRemoved(n: Net, v: View, s: string, ip: string)
    requires n.Valid() && Hosts(n, v.peers) && Decode(s).Some? && ParseIP(ip).Some?
    requires v.peers.Keys == {s} && v.mesh == map[] && v.dev.Keys == {KeyOf(s)}
    ensures var w := ActionStep(n, v, Call(AddMeshIP(s, ip, false)), false).0;
      ActionStep(n, w, Call(RemovePeer(s, false)), false).0 == View(map[], map[s := ip], map[])
  {
    hide Decode, KeyOf, ParseIP, Apply;
    var own := n.At(v.peers[s]);
    OnePeer(v.dev, KeyOf(s), Change(KeyOf(s), true, true, {own, Host(ParseIP(ip).value)}, None));
    OnePeerLess(Step(n, v, AddMeshIP(s, ip, false)).0.dev, KeyOf(s));
    assert v.peers - {s} == map[];
  }

  lemma OnePeer(dev: Dev, key: Key, c: PeerConfig)
    requires dev.Keys <= {key} && c.key == key && !c.remove && (c.updateOnly ==> key in dev)
    ensures Apply(dev, c).Keys == {key}
  {}

  lemma OnePeerLess(dev: Dev, key: Key)
    requires dev.Keys == {key}
    ensures Apply(dev, PeerConfig(key, true, false, false, {}, None)) == map[]
  {}

  /**
   * The forgotten case happens: after adding a peer, giving it a mesh IP and removing it, removing
   * the mesh IP fails on the manager that ran through and succeeds on one restarted before.
   */
  lemma ForgottenHappens(n: Net, k: Key, ip: string, keepalive: Interval)
    requires n.Valid() && n.maxHost >= 3 && ParseIP(ip).Some? && InMesh(ParseIP(ip).value)
    ensures Hosts(n, EmptyView().peers)
    ensures Replies(n, EmptyView(), ForgottenRun(Encode(k), ip, keepalive), false)[4] == Failed(PeerNotFound)
    ensures Replies(n, EmptyView(), ForgottenRun(Encode(k), ip, keepalive), true)[4] == Done
  {
    hide Decode, Encode, KeyOf, ParseIP, ActionStep, Replies;
    KeyTextRoundTrip(k);
    var s, v := Encode(k), EmptyView();
    StaleEntry(n, s, ip, keepalive);
    var r := ForgottenRun(s, ip, keepalive);
    FiveReplies(n, v, r[0], r[1], r[2], r[3], r[4], false);
    FiveReplies(n, v, r[0], r[1], r[2], r[3], r[4], true);
    CallsAlike(n, v, r[0].op);
    var v1 := ActionStep(n, v, r[0], false).0;
    CallsAlike(n, v1, r[1].op);
    var v2 := ActionStep(n, v1, r[1], false).0;
    CallsAlike(n, v2, r[2].op);
    LastCall(n, s, ip);
  }

  lemma CallsAlike(n: Net, v: View, op: Op)
    requires n.Valid() && Hosts(n, v.peers)
    ensures ActionStep(n, v, Call(op), true) == ActionStep(n, v, Call(op), false)
  {}

  lemma LastCall(n: Net, s: string, ip: string)
    requires n.Valid() && Decode(s).Some?
    ensures var stale := View(map[], map[s := ip], map[]);
      && Hosts(n, stale.peers) && ActionStep(n, stale, Restarted, false).0 == stale
      && ActionStep(n, stale, Call(RemoveMeshIP(s, false)), false).1 == Failed(PeerNotFound)
      && ActionStep(n, stale, Restarted, true).0 == EmptyView()
      && ActionStep(n, EmptyView(), Call(RemoveMeshIP(s, false)), true).1 == Done
  {
    hide Decode, KeyOf, ParseIP;
  }

  // ---- A device that could not be read at start ----

  /** The manager of a device that could not be read: nothing is known, whatever the device holds. */
  function Unread(dev: Dev): View { View(map[], map[], dev) }

  /** It is consistent with the device exactly if the device has no peers. */
  lemma UnreadIff(n: Net, dev: Dev)
    ensures Consistent(n, Unread(dev)) <==> dev == map[]
    ensures Agree(n, Unread(dev)) <==> dev == map[]
  {
    hide Decode, KeyOf, ParseIP, FormatIP;
    assert PeerKeys(map[]) == {};
    if dev.Keys == {} { assert dev == map[]; }
  }

  function Adds(texts: seq<string>, keepalive: Interval): seq<Action> {
    seq(|texts|, i requires 0 <= i < |texts| => Call(AddPeer(texts[i], keepalive, false)))
  }

  /** Different texts of keys, none of them a peer yet. */
  ghost predicate NewTexts(peers: map<string, nat>, texts: seq<string>) {
    && (forall i | 0 <= i < |texts| :: Decode(texts[i]).Some? && texts[i] !in peers)
    && (forall i, j | 0 <= i < j < |texts| :: texts[i] != texts[j])
  }

  ghost predicate NoneNames(texts: seq<string>, k: Key) {
    forall i | 0 <= i < |texts| :: Decode(texts[i]).Some? ==> KeyOf(texts[i]) != k
  }

  /** The addresses of the offsets from `from` up to and without `to`. */
  ghost function Addresses(n: Net, from: nat, to: nat): set<IPNet>
    requires n.baseIP + to <= 0x1_0000_0000
  {
    set o | from <= o < to :: n.At(o)
  }

  lemma NextInOrder(c: nat, maxHost: nat)
    requires c < maxHost
    ensures NextOffset(Below(c), maxHost) == Some(c)
  {
    hide NextOffset, Below;
    NextOffsetIsLowest(Below(c), maxHost);
    var o := NextOffset(Below(c), maxHost).value;
    assert o !in Below(c);
    assert o > c ==> c in Below(c);
  }

  /** One enrolment when the offsets below c are assigned: the offset is c, and every other peer loses its address. */
  lemma AddInOrder(n: Net, v: View, s: string, keepalive: Interval, c: nat, k: Key)
    requires n.Valid() && Hosts(n, v.peers) && Taken(v) == Below(c) && 2 <= c < n.maxHost
    requires Decode(s).Some? && s !in v.peers && k in v.dev && KeyOf(s) != k
    ensures var (w, r) := Step(n, v, AddPeer(s, keepalive, false));
      && r == Address(HostText(n.baseIP, c)) && w.peers == v.peers[s := c] && Hosts(n, w.peers) && Taken(w) == Below(c + 1)
      && k in w.dev && w.dev[k].allowed == v.dev[k].allowed - {n.At(c)}
  {
    hide Decode, KeyOf, HostText, NextOffset, Apply, Below, Hosts, Taken;
    NextInOrder(c, n.maxHost);
    StepHosts(n, v, AddPeer(s, keepalive, false));
    TakenGrows(v, Step(n, v, AddPeer(s, keepalive, false)).0, s, c);
    OtherLoses(v.dev, Change(KeyOf(s), false, false, {n.At(c)}, Some(keepalive)), k);
  }

  lemma TakenGrows(v: View, w: View, s: string, c: nat)
    requires s !in v.peers && w.peers == v.peers[s := c] && Taken(v) == Below(c)
    ensures Taken(w) == Below(c + 1)
  {
    hide Below, Taken;
    TakenAdds(v, w, s, c);
    BelowGrows(c);
  }

  lemma TakenAdds(v: View, w: View, s: string, c: nat)
    requires s !in v.peers && w.peers == v.peers[s := c]
    ensures Taken(w) == Taken(v) + {c}
  {
    Loading.ValuesAdd(v.peers, s, c);
  }

  lemma BelowGrows(c: nat)
    ensures Below(c + 1) == Below(c) + {c}
  {}

  lemma OtherLoses(dev: Dev, c: PeerConfig, k: Key)
    requires k in dev && k != c.key && !c.remove && !c.updateOnly
    ensures k in Apply(dev, c) && Apply(dev, c)[k].allowed == dev[k].allowed - c.allowed
  {}

  /**
   * Enrolments hand out the offsets one after the other, whatever the device holds, and whoever
   * had one of these addresses on the device loses it.
   */
  lemma {:induction false} AddsInOrder(n: Net, v: View, texts: seq<string>, keepalive: Interval, c: nat, k: Key)
    requires n.Valid() && Hosts(n, v.peers) && Taken(v) == Below(c) && 2 <= c && c + |texts| <= n.maxHost
    requires NewTexts(v.peers, texts) && k in v.dev && NoneNames(texts, k)
    ensures forall i | 0 <= i < |texts| ::
      Replies(n, v, Adds(texts, keepalive), false)[i] == Address(HostText(n.baseIP, c + i))
    ensures var w := After(n, v, Adds(texts, keepalive), false);
      k in w.dev && w.dev[k].allowed == v.dev[k].allowed - Addresses(n, c, c + |texts|)
    decreases |texts|
  {
    hide Decode, KeyOf, HostText, Step, Taken, Hosts, Below;
    if texts == [] {
      assert Adds(texts, keepalive) == [];
    } else {
      AddInOrder(n, v, texts[0], keepalive, c, k);
      var w := Step(n, v, AddPeer(texts[0], keepalive, false)).0;
      assert Adds(texts, keepalive)[1..] == Adds(texts[1..], keepalive);
      AddsInOrder(n, w, texts[1..], keepalive, c + 1, k);
      assert Addresses(n, c, c + |texts|) == {n.At(c)} + Addresses(n, c + 1, c + |texts|);
    }
  }

  /**
   * So a manager that could not read its device hands out 2, 3, 4 and so on, and the peer that has
   * such an address on the device loses it when its turn comes.
   */
  lemma UnreadHandsOutAgain(n: Net, dev: Dev, k: Key, o: nat, texts: seq<string>, keepalive: Interval)
    requires n.Valid() && k in dev && 2 <= o < n.maxHost && n.At(o) in dev[k].allowed
    requires |texts| == o - 1 && NewTexts(map[], texts) && NoneNames(texts, k)
    ensures Hosts(n, Unread(dev).peers)
    ensures forall i | 0 <= i < |texts| ::
      Replies(n, Unread(dev), Adds(texts, keepalive), false)[i] == Address(HostText(n.baseIP, i + 2))
    ensures Replies(n, Unread(dev), Adds(texts, keepalive), false)[o - 2] == Address(HostText(n.baseIP, o))
    ensures var w := After(n, Unread(dev), Adds(texts, keepalive), false);
      k in w.dev && n.At(o) !in w.dev[k].allowed
  {
    hide Decode, KeyOf, HostText, Step, After, Replies, Adds;
    assert Taken(Unread(dev)) == Below(2) by { assert Unread(dev).peers.Values == {}; }
    AddsInOrder(n, Unread(dev), texts, keepalive, 2, k);
  }

  /** The shortest such run: the one peer of the device has the first address. */
  lemma UnreadTakesFirst(n: Net, k: Key, l: Key, keepalive: Interval)
    requires n.Valid() && 3 <= n.maxHost && k != l
    ensures var v := Unread(map[k := DevPeer({n.At(2)}, 0)]);
      && Hosts(n, v.peers)
      && var (w, r) := Step(n, v, AddPeer(Encode(l), keepalive, false));
      && r == Address(HostText(n.baseIP, 2)) && k in w.dev && w.dev[k].allowed == {}
  {
    hide Decode, KeyOf, Encode, HostText, Step;
    var v := Unread(map[k := DevPeer({n.At(2)}, 0)]);
    KeyTextRoundTrip(l);
    assert Taken(v) == Below(2) by { assert v.peers.Values == {}; }
    AddInOrder(n, v, Encode(l), keepalive, 2, k);
  }
}
