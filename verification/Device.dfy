/** The kernel's WireGuard device as wgctrl's ConfigureDevice and Device drive it. */
module Device {
  import opened Common
  import opened Base64
  import opened Ipv4

  /** The kernel's persistent keepalive: a 16-bit number of seconds. */
  type Interval = x: int | 0 <= x < 0x1_0000

  datatype DevPeer = DevPeer(allowed: set<IPNet>, keepalive: Interval)

  type Dev = map<Key, DevPeer>

  /** wgtypes.PeerConfig; an absent keepalive leaves the peer's interval alone. */
  datatype PeerConfig = PeerConfig(
    key: Key, remove: bool, updateOnly: bool, replaceAllowed: bool, allowed: set<IPNet>, keepalive: Option<Interval>)

  /** An allowed IP belongs to at most one peer: giving it to one takes it from the others. */
  function Apply(dev: Dev, c: PeerConfig): Dev {
    if c.remove then dev - {c.key}
    else if c.updateOnly && c.key !in dev then dev
    else
      var before := if c.key in dev then dev[c.key] else DevPeer({}, 0);
      var kept := if c.replaceAllowed then {} else before.allowed;
      var keepalive := if c.keepalive.Some? then c.keepalive.value else before.keepalive;
      (map k | k in dev :: DevPeer(dev[k].allowed - c.allowed, dev[k].keepalive))
        [c.key := DevPeer(kept + c.allowed, keepalive)]
  }

  /** One entry of the list that reading the device returns. */
  datatype PeerConf = PeerConf(key: Key, allowed: seq<IPNet>, keepalive: Interval)

  function Nets(s: seq<IPNet>): set<IPNet> { set a | a in s }

  function Keys(list: seq<PeerConf>): set<Key> { set p | p in list :: p.key }

  /** The list names every peer once, and each peer's allowed IPs in some order. */
  ghost predicate IsListing(list: seq<PeerConf>, dev: Dev) {
    && (forall i, j | 0 <= i < j < |list| :: list[i].key != list[j].key)
    && Keys(list) == dev.Keys
    && (forall p | p in list :: Nets(p.allowed) == dev[p.key].allowed && p.keepalive == dev[p.key].keepalive)
  }

  lemma KeysAppend(list: seq<PeerConf>, p: PeerConf)
    ensures Keys(list + [p]) == Keys(list) + {p.key}
  {
    assert forall q | q in list :: q in list + [p];
    assert p in list + [p];
  }

  lemma ListingAppend(list: seq<PeerConf>, dev: Dev, p: PeerConf)
    requires IsListing(list, dev) && p.key !in dev
    ensures IsListing(list + [p], dev[p.key := DevPeer(Nets(p.allowed), p.keepalive)])
  {
    KeysAppend(list, p);
    forall q | q in list ensures q.key in dev {
      assert q.key in Keys(list);
    }
  }

  lemma NetsAppend(s: seq<IPNet>, a: IPNet)
    ensures Nets(s + [a]) == Nets(s) + {a}
  {}

  class Kernel {
    var peers: Dev

    constructor (dev: Dev)
      ensures peers == dev
    {
      peers := dev;
    }

    /** The call succeeds or fails as a whole. */
    method Configure(c: PeerConfig, fails: bool) returns (ok: bool)
      modifies this
      ensures ok == !fails
      ensures peers == if fails then old(peers) else Apply(old(peers), c)
    {
      if !fails { peers := Apply(peers, c); }
      ok := !fails;
    }

    /** Reads the device. The order of the peers and of their allowed IPs is the kernel's. */
    method Read() returns (list: seq<PeerConf>)
      ensures IsListing(list, peers)
    {
      list := [];
      var left := peers.Keys;
      ghost var done: Dev := map[];
      while left != {}
        invariant left <= peers.Keys && done == peers - left
        invariant IsListing(list, done)
        decreases left
      {
        hide IsListing, Nets;
        var k :| k in left;
        var nets := Enumerate(peers[k].allowed);
        var p := PeerConf(k, nets, peers[k].keepalive);
        ListingAppend(list, done, p);
        done := done[k := DevPeer(Nets(nets), peers[k].keepalive)];
        list, left := list + [p], left - {k};
      }
    }

    method Enumerate(s: set<IPNet>) returns (list: seq<IPNet>)
      ensures Nets(list) == s
    {
      list := [];
      var left := s;
      while left != {}
        invariant left <= s && Nets(list) == s - left
        decreases |left|
      {
        var a :| a in left;
        NetsAppend(list, a);
        list, left := list + [a], left - {a};
      }
    }
  }
}
