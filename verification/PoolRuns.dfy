/** What every run of the allocator gives, on the sets of offsets that IpPool.Pool is proved against. */
module PoolRuns {
  import opened Common
  import opened IpPool

  datatype PoolOp = Alloc | Free(o: nat) | Take(o: nat)

  function Step(a: set<nat>, maxHost: nat, op: PoolOp): set<nat> {
    match op
    case Alloc => if NextOffset(a, maxHost).Some? then a + {NextOffset(a, maxHost).value} else a
    case Free(o) => a - {o}
    case Take(o) => a + {o}
  }

  function Run(a: set<nat>, maxHost: nat, ops: seq<PoolOp>): set<nat>
    decreases |ops|
  {
    if ops == [] then a else Run(Step(a, maxHost, ops[0]), maxHost, ops[1..])
  }

  predicate IsHost(o: nat, maxHost: nat) { 2 <= o < maxHost }

  predicate OnHosts(op: PoolOp, maxHost: nat) { op.Alloc? || IsHost(op.o, maxHost) }

  /** Network and gateway taken, broadcast never taken, nothing outside the network. */
  ghost predicate HostsOnly(a: set<nat>, maxHost: nat) {
    0 in a && 1 in a && forall o | o in a :: o < maxHost
  }

  /** The smallest free host offset. */
  ghost predicate LowestFreeHost(a: set<nat>, maxHost: nat, o: nat) {
    IsHost(o, maxHost) && o !in a && forall p | 2 <= p < o :: p in a
  }

  /** First-fit: the answer is the smallest free host, and there is an answer unless no host is free. */
  lemma AllocIsFirstFit(a: set<nat>, maxHost: nat)
    requires HostsOnly(a, maxHost)
    ensures match NextOffset(a, maxHost)
      case Some(o) => LowestFreeHost(a, maxHost, o)
      case None => forall o | IsHost(o, maxHost) :: o in a
  {
    if |a| >= maxHost {
      forall o | IsHost(o, maxHost) ensures o in a {
        if o !in a { SubsetCard(a, Below(maxHost) - {o}); }
      }
    }
  }

  /** Over every run on host offsets from a fresh pool, Allocate is first-fit on the hosts. */
  lemma {:induction false} EveryRunIsFirstFit(a: set<nat>, maxHost: nat, ops: seq<PoolOp>)
    requires HostsOnly(a, maxHost)
    requires forall op | op in ops :: OnHosts(op, maxHost)
    ensures HostsOnly(Run(a, maxHost, ops), maxHost)
    ensures match NextOffset(Run(a, maxHost, ops), maxHost)
      case Some(o) => LowestFreeHost(Run(a, maxHost, ops), maxHost, o)
      case None => forall o | IsHost(o, maxHost) :: o in Run(a, maxHost, ops)
    decreases |ops|
  {
    if ops == [] {
      AllocIsFirstFit(a, maxHost);
    } else {
      AllocIsFirstFit(a, maxHost);
      assert OnHosts(ops[0], maxHost);
      EveryRunIsFirstFit(Step(a, maxHost, ops[0]), maxHost, ops[1..]);
    }
  }

  /**
   * Release accepts the network and the gateway offset too. Whatever was released or reserved,
   * Allocate hands out a host exactly as long as these two are still assigned.
   */
  lemma HandsOutHostIff(a: set<nat>, maxHost: nat)
    requires |a| < maxHost
    ensures NextOffset(a, maxHost).Some?
    ensures IsHost(NextOffset(a, maxHost).value, maxHost) <==> 0 in a && 1 in a
  {}

  /** After releasing .0 the next allocation is the network address itself. */
  lemma ReleasedNetworkAddressIsHandedOut()
    ensures Run({0, 1}, 255, [Free(0)]) == {1} && NextOffset({1}, 255) == Some(0)
  {
    assert Run({0, 1}, 255, [Free(0)]) == Run({1}, 255, []);
  }

  /**
   * Reserve accepts the broadcast offset. "Exhausted" is wrong, that is, a usable offset is
   * left, exactly when the broadcast offset is assigned and one other offset is free.
   */
  lemma FalseExhaustionIff(a: set<nat>, maxHost: nat)
    requires forall o | o in a :: o <= maxHost
    ensures (NextOffset(a, maxHost).None? && exists o :: 0 <= o < maxHost && o !in a)
            <==> (maxHost in a && |a| == maxHost)
  {
    if NextOffset(a, maxHost).None? && exists o :: 0 <= o < maxHost && o !in a {
      var o :| 0 <= o < maxHost && o !in a;
      SubsetCard(a, Below(maxHost + 1) - {o});
      if maxHost !in a { SubsetCard(a, Below(maxHost) - {o}); }
    }
    if maxHost in a && |a| == maxHost {
      if forall o | 0 <= o < maxHost :: o in a {
        SubsetCard(Below(maxHost + 1), a);
      }
    }
  }

  /** On a four-address network, after reserving the broadcast address: "exhausted", and the one host is free. */
  lemma ReservedBroadcastExhausts()
    ensures Run({0, 1}, 3, [Take(3)]) == {0, 1, 3} && NextOffset({0, 1, 3}, 3) == None && 2 !in {0, 1, 3}
  {
    assert Run({0, 1}, 3, [Take(3)]) == Run({0, 1, 3}, 3, []);
  }

  function AllocMany(a: set<nat>, maxHost: nat, n: nat): set<nat> {
    if n == 0 then a else Step(AllocMany(a, maxHost, n - 1), maxHost, Alloc)
  }

  /** What the counter leaves of the offsets below maxHost. */
  function AllocationsLeft(a: set<nat>, maxHost: nat): nat { if |a| < maxHost then maxHost - |a| else 0 }

  /** Exactly that many further allocations succeed. */
  lemma {:induction false} RemainingAllocations(a: set<nat>, maxHost: nat, n: nat)
    ensures var left := AllocationsLeft(a, maxHost);
      && (NextOffset(AllocMany(a, maxHost, n), maxHost).Some? <==> n < left)
      && |AllocMany(a, maxHost, n)| == |a| + if n < left then n else left
  {
    hide NextOffset;
    NextOffsetIsLowest(AllocMany(a, maxHost, n), maxHost);
    if n > 0 {
      RemainingAllocations(a, maxHost, n - 1);
      NextOffsetIsLowest(AllocMany(a, maxHost, n - 1), maxHost);
    }
  }

  /** The free hosts: neither network, gateway nor broadcast. */
  ghost function FreeHosts(a: set<nat>, maxHost: nat): (s: set<nat>)
    ensures forall o :: o in s <==> IsHost(o, maxHost) && o !in a
  {
    set o | 0 <= o < maxHost && IsHost(o, maxHost) && o !in a
  }

  /**
   * FreeCount answers maxHost + 1 - count. It promises the free hosts, and this is their number
   * exactly while network, gateway and broadcast are assigned.
   */
  lemma FreeCountIff(a: set<nat>, maxHost: nat)
    requires 1 <= maxHost && forall o | o in a :: o <= maxHost
    ensures maxHost + 1 - |a| == |FreeHosts(a, maxHost)| <==> {0, 1, maxHost} <= a
  {
    hide FreeHosts, Below;
    var free, hosts := Below(maxHost + 1) - a, FreeHosts(a, maxHost);
    FreeOffsets(a, maxHost);
    if {0, 1, maxHost} <= a {
      assert hosts == free;
    } else {
      var o :| o in {0, 1, maxHost} && o !in a;
      assert o in free && o !in hosts;
      SubsetCard(hosts, free - {o});
    }
  }

  lemma FreeOffsets(a: set<nat>, maxHost: nat)
    requires forall o | o in a :: o <= maxHost
    ensures |Below(maxHost + 1) - a| == maxHost + 1 - |a|
  {
    hide Below;
    var free := Below(maxHost + 1) - a;
    assert free + a == Below(maxHost + 1) && free !! a;
  }

  /** It is one more than the allocations left, but for the pool in which every offset is assigned. */
  lemma FreeCountAgainstAllocations(a: set<nat>, maxHost: nat)
    requires forall o | o in a :: o <= maxHost
    ensures maxHost + 1 - |a| == AllocationsLeft(a, maxHost) + if |a| == maxHost + 1 then 0 else 1
  {
    SubsetCard(a, Below(maxHost + 1));
  }

  /**
   * A fresh four-address pool has one host, and FreeCount says two. When the host and the broadcast
   * address are taken, FreeCount and the allocations left are both zero.
   */
  lemma FreeCountOfFour()
    ensures FreeHosts({0, 1}, 3) == {2} && 3 + 1 - |{0, 1}| == 2
    ensures var full := Run({0, 1}, 3, [Alloc, Take(3)]);
      full == {0, 1, 2, 3} && 3 + 1 - |full| == 0 && AllocationsLeft(full, 3) == 0
  {
    AllocIsFirstFit({0, 1}, 3);
    var a, b := Step({0, 1}, 3, Alloc), Take(3);
    assert [Alloc, b][1..] == [b] && [b][1..] == [];
    assert Run({0, 1}, 3, [Alloc, b]) == Run(a, 3, [b]) == Run(a + {3}, 3, []);
  }
}
