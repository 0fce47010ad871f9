/** The manager of internal/wg/manager.go: its maps, its pool, the kernel device and the saved file, kept in step. */
module Manager {
  import opened Common
  import opened Base64
  import opened Ipv4
  import opened IpPool
  import opened Device
  import opened ManagerSpec
  import ConfigFile
  import Loading
  import Restart
  import Text

  class Manager {
    const pool: Pool
    const kernel: Kernel
    const privateKey: Key
    const port: nat
    var peerIPs: map<string, string>
    var meshIPs: map<string, string>
    var saved: string
    ghost var offsets: map<string, nat>

    ghost function Network(): Net { Net(pool.baseIP, pool.maxHost) }

    ghost function State(): View
      reads this`offsets, this`meshIPs, kernel
    {
      View(offsets, meshIPs, kernel.peers)
    }

    /** Network, gateway and the peers' offsets. */
    ghost function InUse(): set<nat>
      reads this`offsets
    {
      {0, 1} + offsets.Values
    }

    /** The address text kept for each peer is that of its offset. */
    ghost predicate TextsMatch()
      reads this`peerIPs, this`offsets
    {
      && peerIPs.Keys == offsets.Keys
      && forall s | s in peerIPs ::
        pool.baseIP + offsets[s] < 0x1_0000_0000 && peerIPs[s] == HostText(pool.baseIP, offsets[s])
    }

    /** The pool holds exactly the offsets of the peers, each offset one peer's. */
    ghost predicate InStep()
      reads this`peerIPs, this`offsets, pool, pool.bitset
    {
      && pool.Valid()
      && Network().Valid()
      && Hosts(Network(), offsets)
      && Injective(offsets)
      && pool.taken == InUse()
      && TextsMatch()
    }

    /** What a method that leaves the maps and the pool alone needs to know. */
    lemma Facts(key: string)
      requires InStep()
      ensures Network().Valid() && Hosts(Network(), offsets) && pool.baseIP + 1 < 0x1_0000_0000
      ensures key in peerIPs <==> key in offsets
      ensures key in peerIPs ==>
        offsets[key] <= pool.maxHost && ParseCIDR(peerIPs[key]) == Some(Host(pool.baseIP + offsets[key]))
    {
      hide HostText, ParseCIDR, Pool.Valid, Injective;
      if key in peerIPs { PoolText(offsets[key]); }
    }

    /** The saved file describes the device `dev`. */
    ghost predicate FileDescribes(dev: Dev)
      requires pool.baseIP + 1 < 0x1_0000_0000
      reads this`saved
    {
      exists list :: IsListing(list, dev) && saved == ConfigFile.ConfigText(privateKey, port, pool.GatewayIP(), list)
    }

    /** The saved file describes the device as it is. */
    ghost predicate FileMatches()
      requires pool.baseIP + 1 < 0x1_0000_0000
      reads this`saved, kernel
    {
      FileDescribes(kernel.peers)
    }

    ghost predicate Valid()
      reads this, pool, pool.bitset, kernel
    {
      InStep() && FileMatches()
    }

    /** The maps and the pool, as loading the device leaves them. */
    ghost function Maps(): Loading.Loaded
      reads this`peerIPs, this`meshIPs, pool
    {
      Loading.Loaded(peerIPs, meshIPs, pool.taken)
    }

    /** The maps and the pool are what some listing of the device is loaded to. */
    ghost predicate LoadedFromDevice()
      reads this`peerIPs, this`meshIPs, pool, kernel
    {
      exists list :: IsListing(list, kernel.peers) && Maps() == Loading.LoadList(Network(), list)
    }

    /**
     * NewManager on an existing device: the maps and the pool are read back from it, whatever order
     * the kernel lists it in. If some manager was consistent with the device, every peer comes back
     * under its key's own text. A device that cannot be read is only logged.
     */
    constructor (n: IPNet, kernel: Kernel, privateKey: Key, port: nat, file: string, readable: bool, ghost v: View)
      requires Masked(n) && 1 <= n.ones <= 31
      ensures this.kernel == kernel && fresh(pool) && fresh(pool.bitset) && pool.Valid()
      ensures pool.baseIP == n.ip && pool.maxHost == Pow2(32 - n.ones) - 1
      ensures saved == file && this.privateKey == privateKey && this.port == port
      ensures if readable then LoadedFromDevice() else Maps() == Loading.Nothing()
      ensures Network().Valid() && !readable ==> InStep() && State() == View(map[], map[], kernel.peers)
      ensures Network().Valid() && readable && Consistent(Network(), v) && v.dev == kernel.peers ==>
        Decodable(v.peers) && OneText(v.peers) && InStep() && State() == Restart.ReadBack(v)
    {
      hide Agree, Consistent, Pool.Valid, Net.Valid, Restart.ReadBack, Pow2, Masked, Injective, Hosts, Decodable, OneText,
        IsListing, Loading.LoadList, TextsMatch;
      this.kernel, this.privateKey, this.port, this.saved := kernel, privateKey, port, file;
      peerIPs, meshIPs, offsets := map[], map[], map[];
      pool := new Pool(n);
      new;
      NothingLoaded();
      if readable {
        var list := LoadExistingPeers();
        if Network().Valid() && Consistent(Network(), v) && v.dev == kernel.peers {
          ConsistentHosts(Network(), v);
          offsets := Restart.ReadBack(v).peers;
          LoadedInStep(v, list);
        }
      }
    }

    lemma NothingLoaded()
      requires peerIPs == map[] && offsets == map[] && meshIPs == map[]
      ensures TextsMatch() && Hosts(Network(), offsets) && Injective(offsets) && Taken(State()) == {0, 1}
    {
      forall s, t ensures Distinct(offsets, s, t) {}
      assert offsets.Values == {};
    }

    /** Loading the device of a consistent manager puts maps and pool in step with it. */
    lemma LoadedInStep(v: View, list: seq<PeerConf>)
      requires pool.Valid() && Network().Valid() && Consistent(Network(), v) && v.dev == kernel.peers
      requires Decodable(v.peers) && OneText(v.peers) && offsets == Restart.ReadBack(v).peers
      requires IsListing(list, v.dev) && Maps() == Loading.LoadList(Network(), list)
      ensures InStep() && State() == Restart.ReadBack(v)
    {
      hide Agree, Consistent, Pool.Valid, Net.Valid, Restart.ReadBack, Restart.Routed, Injective, Hosts, Decodable, OneText,
        IsListing, Loading.LoadList;
      var w := Restart.ReadBack(v);
      Restart.ReadBackAgrees(Network(), v);
      Restart.ReloadedReadBack(Network(), v);
      Loading.LoadsAgreeing(Network(), w, list);
      AgreeingOffsets(Network(), w);
    }

    static lemma AgreeingOffsets(net: Net, v: View)
      requires Agree(net, v)
      ensures Hosts(net, v.peers) && Injective(v.peers)
    {}

    method LoadExistingPeers() returns (ghost list: seq<PeerConf>)
      requires pool.Valid() && peerIPs == map[] && meshIPs == map[] && pool.taken == {0, 1}
      modifies this`peerIPs, this`meshIPs, pool, pool.bitset
      ensures pool.Valid()
      ensures IsListing(list, kernel.peers) && Maps() == Loading.LoadList(Network(), list)
    {
      hide Pool.Valid, IsListing, Encode, Loading.LoadNets, Loading.LoadList;
      var peers := kernel.Read();
      LoadsNothing();
      for i := 0 to |peers|
        invariant pool.Valid() && Maps() == Loading.LoadList(Network(), peers[..i])
      {
        assert peers[..i + 1] == peers[..i] + [peers[i]];
        Loading.LoadListAppend(Network(), peers[..i], peers[i]);
        LoadPeer(Encode(peers[i].key), peers[i].allowed);
      }
      assert peers[..|peers|] == peers;
      list := peers;
    }

    lemma LoadsNothing()
      ensures forall list: seq<PeerConf> | list == [] :: Loading.LoadList(Network(), list) == Loading.Nothing()
    {}

    /** One listed peer. */
    method LoadPeer(pubkey: string, allowed: seq<IPNet>)
      requires pool.Valid()
      modifies this`peerIPs, this`meshIPs, pool, pool.bitset
      ensures pool.Valid() && Maps() == Loading.LoadNets(Network(), old(Maps()), pubkey, allowed)
    {
      hide Pool.Valid, Loading.LoadNet;
      for j := 0 to |allowed|
        invariant pool.Valid() && Maps() == Loading.LoadNets(Network(), old(Maps()), pubkey, allowed[..j])
      {
        assert allowed[..j + 1] == allowed[..j] + [allowed[j]];
        Loading.LoadNetsAppend(Network(), old(Maps()), pubkey, allowed[..j], allowed[j]);
        LoadNet(pubkey, allowed[j]);
      }
      assert allowed[..|allowed|] == allowed;
    }

    /** One allowed IP of a listed peer: to meshIPs if it is in the mesh range, else to peerIPs and the pool. */
    method LoadNet(pubkey: string, aip: IPNet)
      requires pool.Valid()
      modifies this`peerIPs, this`meshIPs, pool, pool.bitset
      ensures pool.Valid() && Maps() == Loading.LoadNet(Network(), old(Maps()), pubkey, aip)
    {
      hide FormatIP, Pool.Valid, TextOffset;
      var ip := FormatIP(aip.ip);
      if InMesh(aip.ip) {
        meshIPs := meshIPs[pubkey := ip];
      } else {
        peerIPs := peerIPs[pubkey := ip + "/32"];
        var _ := pool.Reserve(ip);
      }
    }

    /** A device that cannot be read and a file that cannot be written are only logged: the old file stays. */
    method PersistConfig(writes: bool)
      requires pool.baseIP + 1 < 0x1_0000_0000
      modifies this`saved
      ensures Persisted(writes, old(saved))
    {
      hide IsListing, ConfigFile.ConfigText;
      if writes {
        var list := kernel.Read();
        saved := ConfigFile.Print(privateKey, port, pool.GatewayIP(), list);
      }
    }

    /** The file describes the device if it could be written, and else it is the old one. */
    ghost predicate Persisted(writes: bool, before: string)
      requires pool.baseIP + 1 < 0x1_0000_0000
      reads this`saved, kernel
    {
      if writes then FileMatches() else saved == before
    }

    method AddPeer(key: string, keepalive: Interval, fails: bool, writes: bool) returns (r: Reply)
      requires InStep()
      modifies this, pool, pool.bitset, kernel
      ensures InStep() && (State(), r) == Step(Network(), old(State()), Op.AddPeer(key, keepalive, fails))
      ensures Persisted(writes && Changes(old(State()), Op.AddPeer(key, keepalive, fails), r), old(saved))
    {
      hide IsListing, ConfigFile.ConfigText, Decode, Encode, FormatIP, ParseCIDR, Apply, HostText, Net.Valid,
        Pool.Valid, IsKeyText, NextOffset, FileMatches, TextsMatch;
      if HasPeer(key) {
        return Failed(PeerExists);
      }
      var bytes := Decode(key);
      if bytes.None? {
        return Failed(InvalidKey);
      }
      var ip := pool.Allocate();
      if ip.Err? {
        return Failed(NoAddress);
      }
      ghost var o := NextOffset(old(pool.taken), pool.maxHost).value;
      pool.Bounds();
      AddDistinct(offsets, key, o);
      r := Enroll(key, Fill(bytes.value), ip.value, o, keepalive, fails, writes);
    }

    predicate HasPeer(key: string)
      requires TextsMatch()
      reads this`peerIPs, this`offsets
      ensures HasPeer(key) <==> key in offsets
    {
      key in peerIPs
    }

    /** The change that gives a peer its first address. */
    ghost function AddressChange(key: Key, o: nat, keepalive: Interval): PeerConfig
      requires pool.baseIP + o < 0x1_0000_0000
    {
      Change(key, false, false, {Host(pool.baseIP + o)}, Some(keepalive))
    }

    /** The second half of AddPeer: the allocated address goes to the device, or back to the pool. */
    method Enroll(key: string, pubKey: Key, ip: string, ghost o: nat, keepalive: Interval, fails: bool, writes: bool)
      returns (r: Reply)
      requires o <= pool.maxHost && pool.baseIP + pool.maxHost < 0x1_0000_0000
      requires pool.Valid() && pool.taken == InUse() + {o} && TextsMatch()
      requires key !in offsets && o !in InUse() && ip == HostText(pool.baseIP, o)
      modifies this, pool, pool.bitset, kernel
      ensures pool.Valid() && pool.taken == InUse() && TextsMatch() && Persisted(writes && !fails, old(saved))
      ensures fails ==> State() == old(State()) && r == Failed(DeviceError)
      ensures !fails ==>
        && State() == View(old(offsets)[key := o], old(meshIPs), Apply(old(kernel.peers), AddressChange(pubKey, o, keepalive)))
        && r == Address(ip)
    {
      hide IsListing, ConfigFile.ConfigText, FormatIP, ParseCIDR, Apply, HostText, Pool.Valid, FileMatches, TextOffset;
      pool.Bounds();
      PoolText(o);
      var net := ParseCIDR(ip);
      if net.None? { assert false; }
      var ok := kernel.Configure(PeerConfig(pubKey, false, false, false, {net.value}, Some(keepalive)), fails);
      if !ok {
        var _ := pool.Release(ip);
        return Failed(DeviceError);
      }
      Loading.ValuesAdd(offsets, key, o);
      peerIPs, offsets := peerIPs[key := ip], offsets[key := o];
      PersistConfig(writes);
      return Address(ip);
    }

    method RemovePeer(key: string, fails: bool, writes: bool) returns (r: Reply)
      requires InStep()
      modifies this, pool, pool.bitset, kernel
      ensures InStep() && (State(), r) == Step(Network(), old(State()), Op.RemovePeer(key, fails))
      ensures Persisted(writes && Changes(old(State()), Op.RemovePeer(key, fails), r), old(saved))
    {
      hide IsListing, ConfigFile.ConfigText, Decode, Encode, FormatIP, ParseCIDR, Apply, HostText, Net.Valid,
        Pool.Valid, IsKeyText, FileMatches, InStep, Hosts;
      Facts(key);
      var bytes := Decode(key);
      if bytes.None? {
        return Failed(InvalidKey);
      }
      var ok := kernel.Configure(PeerConfig(Fill(bytes.value), true, false, false, {}, None), fails);
      if !ok {
        return Failed(DeviceError);
      }
      Forget(key);
      PersistConfig(writes);
      return Done;
    }

    /** The key's address goes back to the pool and its map entry goes. The mesh entry stays. */
    method Forget(key: string)
      requires InStep()
      modifies this`peerIPs, this`offsets, pool, pool.bitset
      ensures InStep() && offsets == old(offsets) - {key}
    {
      hide HostText, Net.Valid, Pool.Valid, Injective, TextOffset, ParseCIDR;
      if key in peerIPs {
        pool.Bounds();
        PoolText(offsets[key]);
        var _ := pool.Release(peerIPs[key]);
        ValuesRemove(offsets, key);
        RemoveDistinct(offsets, key);
        peerIPs, offsets := peerIPs - {key}, offsets - {key};
      } else {
        assert offsets - {key} == offsets;
      }
    }

    method UpdatePeer(key: string, keepalive: Interval, fails: bool, writes: bool) returns (r: Reply)
      requires InStep()
      modifies this, kernel
      ensures InStep() && (State(), r) == Step(Network(), old(State()), Op.UpdatePeer(key, keepalive, fails))
      ensures Persisted(writes && Changes(old(State()), Op.UpdatePeer(key, keepalive, fails), r), old(saved))
    {
      hide IsListing, ConfigFile.ConfigText, Decode, Encode, FormatIP, ParseCIDR, ParseIP, Apply, HostText, Net.Valid,
        Pool.Valid, IsKeyText, FileMatches, InStep, TextsMatch, Hosts;
      Facts(key);
      var bytes := Decode(key);
      if bytes.None? {
        return Failed(InvalidKey);
      }
      if key !in peerIPs {
        return Failed(PeerNotFound);
      }
      var net := ParseCIDR(peerIPs[key]);
      if net.None? { assert false; }
      var ok := kernel.Configure(PeerConfig(Fill(bytes.value), false, true, false, {net.value}, Some(keepalive)), fails);
      if !ok {
        return Failed(DeviceError);
      }
      PersistConfig(writes);
      return Done;
    }

    method AddMeshIP(key: string, meshIP: string, fails: bool, writes: bool) returns (r: Reply)
      requires InStep()
      modifies this, kernel
      ensures InStep() && (State(), r) == Step(Network(), old(State()), Op.AddMeshIP(key, meshIP, fails))
      ensures Persisted(writes && Changes(old(State()), Op.AddMeshIP(key, meshIP, fails), r), old(saved))
    {
      hide IsListing, ConfigFile.ConfigText, Decode, Encode, FormatIP, ParseCIDR, ParseIP, Apply, HostText, Net.Valid,
        Pool.Valid, IsKeyText, FileMatches, InStep, TextsMatch, Hosts;
      Facts(key);
      var bytes := Decode(key);
      if bytes.None? {
        return Failed(InvalidKey);
      }
      if key !in peerIPs {
        return Failed(PeerNotFound);
      }
      var vpnNet := ParseCIDR(peerIPs[key]);
      if vpnNet.None? { assert false; }
      var ip := ParseIP(meshIP);
      if ip.None? {
        return Failed(InvalidMeshIP);
      }
      var both := {vpnNet.value, Host(ip.value)};
      var ok := kernel.Configure(PeerConfig(Fill(bytes.value), false, true, true, both, None), fails);
      if !ok {
        return Failed(DeviceError);
      }
      meshIPs := meshIPs[key := meshIP];
      PersistConfig(writes);
      return Done;
    }

    method RemoveMeshIP(key: string, fails: bool, writes: bool) returns (r: Reply)
      requires InStep()
      modifies this, kernel
      ensures InStep() && (State(), r) == Step(Network(), old(State()), Op.RemoveMeshIP(key, fails))
      ensures Persisted(writes && Changes(old(State()), Op.RemoveMeshIP(key, fails), r), old(saved))
    {
      hide IsListing, ConfigFile.ConfigText, Decode, Encode, FormatIP, ParseCIDR, ParseIP, Apply, HostText, Net.Valid,
        Pool.Valid, IsKeyText, FileMatches, InStep, TextsMatch, Hosts;
      Facts(key);
      if key !in meshIPs {
        return Done;
      }
      var bytes := Decode(key);
      if bytes.None? {
        return Failed(InvalidKey);
      }
      if key !in peerIPs {
        return Failed(PeerNotFound);
      }
      var vpnNet := ParseCIDR(peerIPs[key]);
      if vpnNet.None? { assert false; }
      var ok := kernel.Configure(PeerConfig(Fill(bytes.value), false, true, true, {vpnNet.value}, None), fails);
      if !ok {
        return Failed(DeviceError);
      }
      meshIPs := meshIPs - {key};
      PersistConfig(writes);
      return Done;
    }

    static lemma ValuesRemove(m: map<string, nat>, s: string)
      requires s in m && Injective(m)
      ensures (m - {s}).Values == m.Values - {m[s]}
    {
      forall x | x in m.Values && x != m[s] ensures x in (m - {s}).Values {
        var t :| t in m && m[t] == x;
        assert (m - {s})[t] == x;
      }
      forall t | t in m - {s} ensures m[t] != m[s] { assert Distinct(m, t, s); }
    }

    /** The pool's own texts read back. */
    lemma PoolText(o: nat)
      requires pool.baseIP + pool.maxHost < 0x1_0000_0000 && o <= pool.maxHost
      ensures TextOffset(pool.baseIP, pool.maxHost, HostText(pool.baseIP, o)) == Some(o)
      ensures ParseCIDR(HostText(pool.baseIP, o)) == Some(Host(pool.baseIP + o))
    {
      hide TextOffset, ParseCIDR, FormatIP;
      OffsetRoundTrip(pool.baseIP, pool.maxHost, o);
      ParseHost(pool.baseIP + o);
    }
  }

  /** One call of the public API. */
  method Call(m: Manager, op: Op, writes: bool) returns (r: Reply)
    requires m.InStep()
    modifies m, m.pool, m.pool.bitset, m.kernel
    ensures m.InStep() && (m.State(), r) == Step(m.Network(), old(m.State()), op)
    ensures m.Persisted(writes && Changes(old(m.State()), op, r), old(m.saved))
    ensures old(m.FileMatches()) && !Changes(old(m.State()), op, r) ==> m.FileMatches()
  {
    hide Step, Manager.FileDescribes, Manager.InStep, Changes;
    InStepFacts(m);
    NothingChanges(m.Network(), m.State(), op);
    match op
    case AddPeer(key, keepalive, fails) => r := m.AddPeer(key, keepalive, fails, writes);
    case RemovePeer(key, fails) => r := m.RemovePeer(key, fails, writes);
    case UpdatePeer(key, keepalive, fails) => r := m.UpdatePeer(key, keepalive, fails, writes);
    case AddMeshIP(key, ip, fails) => r := m.AddMeshIP(key, ip, fails, writes);
    case RemoveMeshIP(key, fails) => r := m.RemoveMeshIP(key, fails, writes);
  }

  lemma InStepFacts(m: Manager)
    requires m.InStep()
    ensures m.Network().Valid() && m.pool.baseIP + 1 < 0x1_0000_0000 && Hosts(m.Network(), m.State().peers)
  {}

  function Calls(ops: seq<Op>): seq<Restart.Action> { seq(|ops|, i requires 0 <= i < |ops| => Restart.Call(ops[i])) }

  /** The saved file describes the device after the run: the last call that changed something could write it. */
  ghost predicate FileKept(net: Net, v: View, ops: seq<Op>, writes: seq<bool>, matches: bool)
    requires net.Valid() && Hosts(net, v.peers) && |writes| == |ops|
    decreases |ops|
  {
    if ops == [] then matches
    else
      StepHosts(net, v, ops[0]);
      var (w, r) := Step(net, v, ops[0]);
      FileKept(net, w, ops[1..], writes[1..], if Changes(v, ops[0], r) then writes[0] else matches)
  }

  /** If every write works and the file matched at first, it matches. */
  lemma {:induction false} AllWritten(net: Net, v: View, ops: seq<Op>, writes: seq<bool>)
    requires net.Valid() && Hosts(net, v.peers) && |writes| == |ops| && forall w | w in writes :: w
    ensures FileKept(net, v, ops, writes, true)
    decreases |ops|
  {
    hide Step, Changes;
    if ops != [] {
      assert writes[0] in writes && forall w | w in writes[1..] :: w in writes;
      StepHosts(net, v, ops[0]);
      AllWritten(net, Step(net, v, ops[0]).0, ops[1..], writes[1..]);
    }
  }

  /** A whole run of the running manager, of any calls, is the run of the specification. */
  method Serve(m: Manager, ops: seq<Op>, writes: seq<bool>) returns (replies: seq<Reply>)
    requires m.InStep() && |writes| == |ops|
    modifies m, m.pool, m.pool.bitset, m.kernel
    ensures m.InStep()
    ensures m.State() == Restart.After(m.Network(), old(m.State()), Calls(ops), false)
    ensures replies == Restart.Replies(m.Network(), old(m.State()), Calls(ops), false)
    ensures FileKept(m.Network(), old(m.State()), ops, writes, old(m.FileMatches())) ==> m.FileMatches()
  {
    hide Step, Changes, Calls, FileKept, Restart.After, Restart.Replies, Manager.InStep, Manager.FileMatches;
    InStepFacts(m);
    replies := [];
    ghost var matches := m.FileMatches();
    for i := 0 to |ops|
      invariant m.InStep() && m.Network().Valid() && Hosts(m.Network(), m.State().peers)
      invariant Restart.After(m.Network(), m.State(), Calls(ops[i..]), false) ==
                Restart.After(m.Network(), old(m.State()), Calls(ops), false)
      invariant replies + Restart.Replies(m.Network(), m.State(), Calls(ops[i..]), false) ==
                Restart.Replies(m.Network(), old(m.State()), Calls(ops), false)
      invariant matches ==> m.FileMatches()
      invariant FileKept(m.Network(), m.State(), ops[i..], writes[i..], matches) ==
                FileKept(m.Network(), old(m.State()), ops, writes, old(m.FileMatches()))
    {
      ghost var v := m.State();
      FirstCall(m.Network(), v, ops, writes, i, matches);
      var r := Call(m, ops[i], writes[i]);
      InStepFacts(m);
      matches := if Changes(v, ops[i], r) then writes[i] else matches;
      replies := replies + [r];
    }
    NoCall(m.Network(), m.State(), ops, writes, matches);
  }

  /** A run from the i-th call on is that call and the rest. */
  lemma FirstCall(net: Net, v: View, ops: seq<Op>, writes: seq<bool>, i: nat, matches: bool)
    requires net.Valid() && Hosts(net, v.peers) && i < |ops| == |writes|
    ensures var (w, r) := Step(net, v, ops[i]);
      && Hosts(net, w.peers)
      && Restart.After(net, v, Calls(ops[i..]), false) == Restart.After(net, w, Calls(ops[i + 1..]), false)
      && Restart.Replies(net, v, Calls(ops[i..]), false) == [r] + Restart.Replies(net, w, Calls(ops[i + 1..]), false)
      && FileKept(net, v, ops[i..], writes[i..], matches) ==
         FileKept(net, w, ops[i + 1..], writes[i + 1..], if Changes(v, ops[i], r) then writes[i] else matches)
  {
    hide Step, Changes, Net.Valid, Hosts;
    StepHosts(net, v, ops[i]);
    assert Calls(ops[i..])[1..] == Calls(ops[i + 1..]) && Calls(ops[i..])[0] == Restart.Call(ops[i]);
    assert ops[i..][1..] == ops[i + 1..] && writes[i..][1..] == writes[i + 1..];
  }

  lemma NoCall(net: Net, v: View, ops: seq<Op>, writes: seq<bool>, matches: bool)
    requires net.Valid() && Hosts(net, v.peers) && |ops| == |writes|
    ensures Restart.After(net, v, Calls(ops[|ops|..]), false) == v
    ensures Restart.Replies(net, v, Calls(ops[|ops|..]), false) == []
    ensures FileKept(net, v, ops[|ops|..], writes[|ops|..], matches) == matches
  {
    assert Calls(ops[|ops|..]) == [];
  }

  /**
   * The first start: a new interface with a generated key and no peers, whose file is written at
   * once. The file needs only the device, so it may as well be written after the empty device is loaded.
   */
  method FreshStart(n: IPNet, file: string, port: nat, generated: Key, writes: bool) returns (m: Manager)
    requires Masked(n) && 1 <= n.ones <= 31 && Net(n.ip, MaxHost(n.ones)).Valid()
    ensures fresh(m) && fresh(m.kernel) && fresh(m.pool) && fresh(m.pool.bitset)
    ensures m.InStep() && m.Network() == Net(n.ip, MaxHost(n.ones)) && m.privateKey == generated && m.port == port
    ensures m.State() == View(map[], map[], map[]) && Agree(m.Network(), m.State())
    ensures if writes then m.Valid() else m.saved == file
  {
    hide Agree, Consistent, Pow2, Masked, MaxHost, WordCount, Net.Valid, Restart.ReadBack, Manager.InStep, Manager.FileMatches,
      Manager.LoadedFromDevice, Manager.Maps, Pool.Valid, Decodable, OneText;
    var kernel := new Kernel(map[]);
    NewFitsIff(n.ones);
    EmptyStart(Net(n.ip, MaxHost(n.ones)));
    m := new Manager(n, kernel, generated, port, file, true, View(map[], map[], map[]));
    InStepFacts(m);
    m.PersistConfig(writes);
  }

  lemma EmptyStart(net: Net)
    ensures var v := View(map[], map[], map[]);
      Agree(net, v) && Consistent(net, v) && Decodable(v.peers) && OneText(v.peers) && Restart.ReadBack(v) == v
  {
    hide Agree, Consistent;
    Restart.EmptyAgrees(net);
    Restart.AgreeIsConsistent(net, View(map[], map[], map[]));
    Restart.EmptyReadBack();
  }

  /** The interface recreated from the saved file; without a readable key a fresh, empty one with a generated key. */
  method RestoreFromConfig(file: string, generated: Key) returns (priv: Key, kernel: Kernel)
    ensures fresh(kernel)
    ensures match ConfigFile.Restored(file).0
      case Some(found) => priv == found && kernel.peers == Restart.ApplyAll(map[], ConfigFile.Restored(file).1)
      case None => priv == generated && kernel.peers == map[]
  {
    hide ConfigFile.Restored, Apply, Restart.Given;
    var found, peers := ConfigFile.Scan(file);
    kernel := new Kernel(map[]);
    if found.None? {
      priv := generated;
      return;
    }
    priv := found.value;
    for i := 0 to |peers|
      invariant fresh(kernel)
      invariant Restart.ApplyAll(kernel.peers, peers[i..]) == Restart.ApplyAll(map[], peers)
    {
      assert peers[i..][1..] == peers[i + 1..];
      var _ := kernel.Configure(Restart.Given(peers[i]), false);
    }
    assert peers[|peers|..] == [];
  }

  /**
   * Restart with the device gone: from the file a valid manager left, the private key, the device
   * and the manager's own maps all come back.
   */
  method ColdStart(n: IPNet, file: string, port: nat, generated: Key, ghost before: Manager) returns (m: Manager)
    requires Masked(n) && 1 <= n.ones <= 31
    requires before.Valid() && Consistent(before.Network(), before.State()) && file == before.saved
    requires before.pool.baseIP == n.ip && before.pool.maxHost == Pow2(32 - n.ones) - 1
    ensures fresh(m) && m.InStep() && m.Network() == before.Network()
    ensures m.privateKey == before.privateKey && m.saved == file
    ensures Decodable(before.State().peers) && OneText(before.State().peers)
    ensures m.State() == Restart.ReadBack(before.State())
    ensures port == before.port ==> m.Valid()
  {
    hide ConfigFile.Restored, ConfigFile.ConfigText, Consistent, IsListing, Pool.Valid, Restart.ApplyAll, Restart.ReadBack,
      Pow2, Masked, FormatIP, Manager.InStep, Manager.FileMatches, Manager.LoadedFromDevice, Decodable, OneText, Net.Valid;
    ValidFacts(before);
    SavedFileRestores(before);
    var priv, kernel := RestoreFromConfig(file, generated);
    m := new Manager(n, kernel, priv, port, file, true, before.State());
    if port == before.port { SameFileMatches(before, m); }
  }

  /** What parsing the saved file of a consistent manager gives: its private key and its device. */
  lemma SavedFileRestores(m: Manager)
    requires m.Valid() && Consistent(m.Network(), m.State())
    ensures ConfigFile.Restored(m.saved).0 == Some(m.privateKey)
    ensures Restart.ApplyAll(map[], ConfigFile.Restored(m.saved).1) == m.kernel.peers
  {
    hide ConfigFile.Restored, ConfigFile.ConfigText, Consistent, IsListing, Pool.Valid, Restart.ApplyAll, FormatIP;
    var list :|
      IsListing(list, m.kernel.peers) && m.saved == ConfigFile.ConfigText(m.privateKey, m.port, m.pool.GatewayIP(), list);
    GatewayText(m.pool.baseIP + 1);
    Restart.FileRestoresDevice(m.Network(), m.State(), m.privateKey, m.port, m.pool.GatewayIP(), list);
  }

  /** The replies of two runs, and the state after the second, compared with a manager that ran through. */
  ghost predicate RestartUnnoticed(
    net: Net, start: View, ops: seq<Op>, later: seq<Op>, first: seq<Reply>, second: seq<Reply>, end: View)
  {
    && net.Valid() && Hosts(net, start.peers)
    && var v := Restart.After(net, start, Calls(ops), false);
    && first == Restart.Replies(net, start, Calls(ops), false)
    && Restart.Similar(net, Restart.After(net, v, Calls(later), false), end)
    && var whole := Restart.Replies(net, v, Calls(later), false);
    && |second| == |later| && Hosts(net, Restart.Reloaded(v).peers)
    && forall i: nat | i < |later| :: second[i] == whole[i] <==> !Restart.ForgottenAt(net, v, Restart.Reloaded(v), Calls(later), i)
  }

  /** No call of either run spoils the agreement at its turn. */
  ghost predicate BothUnspoiled(net: Net, start: View, ops: seq<Op>, later: seq<Op>) {
    && net.Valid() && Agree(net, start) && Hosts(net, start.peers)
    && Restart.Unspoiled(net, start, Calls(ops), false)
    && Restart.Unspoiled(net, Restart.After(net, start, Calls(ops), false), Calls(later), false)
  }

  /**
   * A run, a restart of the manager on the device it left, and another run: the second run answers
   * every call as if there had been no restart, exactly outside the forgotten case, and leaves the
   * same peers and device. If every write works, the file describes the device at the end.
   */
  method RestartBetween(m: Manager, n: IPNet, ops: seq<Op>, later: seq<Op>, writes: seq<bool>, laterWrites: seq<bool>)
    returns (r: Manager, first: seq<Reply>, second: seq<Reply>)
    requires m.InStep() && BothUnspoiled(m.Network(), m.State(), ops, later) && |writes| == |ops| && |laterWrites| == |later|
    requires Masked(n) && 1 <= n.ones <= 31 && m.pool.baseIP == n.ip && m.pool.maxHost == Pow2(32 - n.ones) - 1
    modifies m, m.pool, m.pool.bitset, m.kernel
    ensures fresh(r) && r.kernel == m.kernel && r.InStep() && r.Network() == m.Network()
    ensures RestartUnnoticed(m.Network(), old(m.State()), ops, later, first, second, r.State())
    ensures old(m.FileMatches()) && (forall w | w in writes + laterWrites :: w) ==> r.Valid()
  {
    hide Step, Agree, Consistent, Pool.Valid, Net.Valid, Manager.InStep, Manager.FileMatches, Restart.Similar,
      Restart.Reloaded, Restart.After, Restart.Replies, Restart.Unspoiled, Restart.ForgottenAt, Restart.ReadBack, Masked, Pow2,
      Hosts, Decodable, OneText, FileKept;
    ghost var net := m.Network();
    Restart.RunAgreesIff(net, m.State(), Calls(ops), false);
    ghost var all := forall w | w in writes + laterWrites :: w;
    assert all ==> (forall w | w in writes :: w in writes + laterWrites) && forall w | w in laterWrites :: w in writes + laterWrites;
    if all { AllWritten(net, m.State(), ops, writes); }
    first := Serve(m, ops, writes);
    ghost var v := m.State();
    Restart.AgreeIsConsistent(net, v);
    Restart.ReadBackIsReloaded(net, v);
    r := Restarted(m, n);
    AlikeAfterRestart(net, v, later);
    if all { AllWritten(net, r.State(), later, laterWrites); }
    second := Serve(r, later, laterWrites);
  }

  /** A new manager on the device and with the file that another one left. */
  method Restarted(m: Manager, n: IPNet) returns (r: Manager)
    requires m.InStep() && Consistent(m.Network(), m.State())
    requires Masked(n) && 1 <= n.ones <= 31 && m.pool.baseIP == n.ip && m.pool.maxHost == Pow2(32 - n.ones) - 1
    ensures fresh(r) && fresh(r.pool) && fresh(r.pool.bitset)
    ensures r.kernel == m.kernel && r.InStep() && r.Network() == m.Network()
    ensures Decodable(m.State().peers) && OneText(m.State().peers)
    ensures r.State() == Restart.ReadBack(m.State())
    ensures m.FileMatches() ==> r.Valid()
  {
    hide Step, Consistent, Pool.Valid, Net.Valid, Manager.InStep, Manager.FileMatches, Manager.LoadedFromDevice,
      Restart.ReadBack, Masked, Pow2, Decodable, OneText;
    InStepFacts(m);
    r := new Manager(n, m.kernel, m.privateKey, m.port, m.saved, true, m.State());
    if m.FileMatches() { SameFileMatches(m, r); }
  }

  lemma AlikeAfterRestart(net: Net, v: View, later: seq<Op>)
    requires net.Valid() && Agree(net, v) && Hosts(net, v.peers) && Restart.Unspoiled(net, v, Calls(later), false)
    ensures Hosts(net, Restart.Reloaded(v).peers)
    ensures Restart.Similar(net, Restart.After(net, v, Calls(later), false),
                            Restart.After(net, Restart.Reloaded(v), Calls(later), false))
    ensures forall i: nat | i < |later| ::
      Restart.Replies(net, Restart.Reloaded(v), Calls(later), false)[i] == Restart.Replies(net, v, Calls(later), false)[i] <==>
      !Restart.ForgottenAt(net, v, Restart.Reloaded(v), Calls(later), i)
  {
    hide Step, Agree, Net.Valid, Restart.Similar, Restart.Reloaded, Restart.After, Restart.Replies, Restart.Unspoiled,
      Restart.ForgottenAt, Hosts;
    Restart.RestartIsSimilar(net, v);
    Restart.SimilarFacts(net, v, Restart.Reloaded(v));
    Restart.RestartsAreInvisible(net, v, Restart.Reloaded(v), Calls(later));
    Restart.CallsOnly(net, Restart.Reloaded(v), Calls(later));
  }

  lemma ValidFacts(m: Manager)
    requires m.Valid()
    ensures m.InStep() && m.Network().Valid() && m.pool.baseIP + 1 < 0x1_0000_0000 && m.FileMatches()
  {}

  /** A manager that keeps the file of another one, on an equal device and the same pool network, keeps it matching. */
  lemma SameFileMatches(m: Manager, r: Manager)
    requires m.pool.baseIP + 1 < 0x1_0000_0000 && m.FileMatches()
    requires r.kernel.peers == m.kernel.peers && r.saved == m.saved && r.privateKey == m.privateKey && r.port == m.port
    requires r.Network() == m.Network() && r.InStep()
    ensures r.Valid()
  {
    hide IsListing, ConfigFile.ConfigText, Pool.Valid, Manager.InStep;
    var list :| IsListing(list, m.kernel.peers) && m.saved == ConfigFile.ConfigText(m.privateKey, m.port, m.pool.GatewayIP(), list);
  }

  lemma GatewayText(ip: uint32)
    ensures Text.Trimmed(FormatIP(ip) + "/16") && '\n' !in FormatIP(ip) + "/16"
  {
    hide FormatIP;
    ParseFormat(ip);
    var s := FormatIP(ip) + "/16";
    assert forall c | c in s :: c in FormatIP(ip) || c in "/16";
    Text.WithoutSpaces(s);
  }
}
