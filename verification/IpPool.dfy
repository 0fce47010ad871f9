/** The address allocator of internal/ippool/pool.go: a bitset over host offsets with a redundant count and a scan hint. */
module IpPool {
  import opened Common
  import opened Text
  import opened Ipv4
  import opened Words

  datatype PoolError = Exhausted | AlreadyUsed | NotFound

  // ---- Specification on sets of offsets ----

  /** The smallest offset from `from` up that is not in `a`, or `bound` when there is none below it. */
  function FirstFree(a: set<nat>, from: nat, bound: nat): (o: nat)
    requires from <= bound
    ensures from <= o <= bound
    ensures forall p | from <= p < o :: p in a
    ensures o < bound ==> o !in a
    decreases bound - from
  {
    if from < bound && from in a then FirstFree(a, from + 1, bound) else from
  }

  /** A set that misses fewer than all offsets below `bound` leaves one free. */
  lemma RoomLeft(a: set<nat>, bound: nat)
    requires |a| < bound
    ensures FirstFree(a, 0, bound) < bound
  {
    if FirstFree(a, 0, bound) == bound { SubsetCard(Below(bound), a); }
  }

  /** What Allocate hands out when `a` is assigned: the smallest free offset, unless the counter says full. */
  function NextOffset(a: set<nat>, maxHost: nat): (r: Option<nat>)
    ensures r.Some? ==> r.value < maxHost && r.value !in a
  {
    if |a| >= maxHost then None
    else
      RoomLeft(a, maxHost);
      Some(FirstFree(a, 0, maxHost))
  }

  /** It is the smallest free offset of the whole pool, and there is none exactly when the counter says so. */
  lemma NextOffsetIsLowest(a: set<nat>, maxHost: nat)
    ensures NextOffset(a, maxHost).None? <==> |a| >= maxHost
    ensures NextOffset(a, maxHost).Some? ==>
      var o := NextOffset(a, maxHost).value;
      o < maxHost && o !in a && forall p | 0 <= p < o :: p in a
  {
    hide FirstFree;
    if |a| < maxHost { RoomLeft(a, maxHost); }
  }

  /** The offsets whose bit is set in a list of words. */
  ghost function Offsets(words: seq<bv64>): (s: set<nat>)
    ensures forall o: nat :: o in s <==> o < 64 * |words| && Test(words[o / 64], o % 64)
  {
    if words == [] then {}
    else
      var last := |words| - 1;
      Offsets(words[..last]) + Members(words[last], 64 * last, 64)
  }

  lemma OffsetsCard(words: seq<bv64>)
    requires words != []
    ensures |Offsets(words)| == |Offsets(words[..|words| - 1])| + Ones(words[|words| - 1], 64)
  {
    var last := |words| - 1;
    OnesCountsMembers(words[last], 64 * last, 64);
    assert Offsets(words[..last]) !! Members(words[last], 64 * last, 64);
  }

  /** Rewriting one word so that only bit o % 64 changes adds or removes exactly offset o. */
  lemma OffsetsUpdate(words: seq<bv64>, o: nat, on: bool)
    requires o < 64 * |words|
    ensures var w := if on then SetBit(words[o / 64], o % 64) else ClearBit(words[o / 64], o % 64);
      Offsets(words[o / 64 := w]) == if on then Offsets(words) + {o} else Offsets(words) - {o}
  {
    hide Test, SetBit, ClearBit, Offsets;
    var w := if on then SetBit(words[o / 64], o % 64) else ClearBit(words[o / 64], o % 64);
    forall p: nat | p < 64 * |words|
      ensures p in Offsets(words[o / 64 := w]) <==> (if on then p == o || p in Offsets(words) else p != o && p in Offsets(words))
    {
      if p / 64 == o / 64 {
        BitSpec(words[o / 64], o % 64, p % 64);
      }
    }
  }

  // ---- Address text ----

  function BeforeSlash(s: string): string { Split(s, '/')[0] }

  lemma {:induction false} BeforeSlashAt(s: string, i: nat)
    requires i <= |s| && '/' !in s[..i] && (i < |s| ==> s[i] == '/')
    ensures BeforeSlash(s) == s[..i]
  {
    if i == |s| {
      assert s[..i] == s;
      SplitOne(s, '/');
    } else {
      SplitFirst(s[..i], '/', s[i + 1..]);
      assert s == s[..i] + ['/'] + s[i + 1..];
    }
  }

  method StripMask(ip: string) returns (r: string)
    ensures r == BeforeSlash(ip)
  {
    for i := 0 to |ip|
      invariant '/' !in ip[..i]
    {
      if ip[i] == '/' {
        BeforeSlashAt(ip, i);
        return ip[..i];
      }
    }
    BeforeSlashAt(ip, |ip|);
    return ip;
  }

  /** The offset that Release and Reserve work on, from the text they are given. */
  function TextOffset(baseIP: uint32, maxHost: uint32, ip: string): Option<uint32> {
    IpToOffset(baseIP, maxHost, BeforeSlash(ip))
  }

  function IpToOffset(baseIP: uint32, maxHost: uint32, s: string): Option<uint32> {
    match ParseIP(s)
    case None => None
    case Some(ip) => if ip < baseIP || ip > baseIP + maxHost then None else Some(ip - baseIP)
  }

  function HostText(baseIP: uint32, o: nat): string
    requires baseIP + o < 0x1_0000_0000
  {
    FormatIP(baseIP + o) + "/32"
  }

  /** offsetToIP and ipToOffset undo each other, with or without the mask. */
  lemma OffsetRoundTrip(baseIP: uint32, maxHost: uint32, o: uint32)
    requires o <= maxHost && baseIP + maxHost < 0x1_0000_0000
    ensures TextOffset(baseIP, maxHost, HostText(baseIP, o)) == Some(o)
    ensures TextOffset(baseIP, maxHost, FormatIP(baseIP + o)) == Some(o)
  {
    hide FormatIP, ParseIP, BeforeSlash;
    var ip := FormatIP(baseIP + o);
    ParseFormat(baseIP + o);
    assert HostText(baseIP, o)[..|ip|] == ip;
    BeforeSlashAt(HostText(baseIP, o), |ip|);
    assert ip[..|ip|] == ip;
    BeforeSlashAt(ip, |ip|);
  }

  /** An address outside the network is refused, and whatever is accepted is that offset's own text. */
  lemma OffsetExact(baseIP: uint32, maxHost: uint32, ip: string)
    requires baseIP + maxHost < 0x1_0000_0000
    ensures TextOffset(baseIP, maxHost, ip).None? <==>
            ParseIP(BeforeSlash(ip)).None? || !(baseIP <= ParseIP(BeforeSlash(ip)).value <= baseIP + maxHost)
    ensures TextOffset(baseIP, maxHost, ip).Some? ==>
            BeforeSlash(ip) == FormatIP(baseIP + TextOffset(baseIP, maxHost, ip).value)
  {
    hide ParseIP, FormatIP, BeforeSlash;
    if ParseIP(BeforeSlash(ip)).Some? { FormatParse(BeforeSlash(ip)); }
  }

  /** The last offset of a network of prefix length `ones`, and no 32-bit overflow when it is added to the base. */
  lemma LastAddressFits(n: IPNet)
    requires Masked(n)
    ensures n.ip + Pow2(32 - n.ones) <= 0x1_0000_0000
  {
    var bits := 32 - n.ones;
    PowersMultiply(bits, n.ones);
    WordPowers();
    Pow2Monotone(0, bits);
    MultipleBelow(n.ip, Pow2(bits), Pow2(n.ones));
  }

  lemma MultipleBelow(n: nat, d: nat, q: nat)
    requires d >= 1 && n % d == 0 && n < d * q
    ensures n + d <= d * q
  {
    var k := n / d;
    assert n == d * k;
    assert k < q by { Scale(d, q, k); }
    Scale(d, k + 1, q);
  }

  lemma Scale(d: nat, a: nat, b: nat)
    ensures a <= b ==> d * a <= d * b
  {}

  /** maxHost and the number of words as New computes them, in 32-bit arithmetic. */
  function MaxHost(ones: nat): uint32
    requires ones <= 32
  {
    (Pow2(32 - ones) + 0xFFFF_FFFF) % 0x1_0000_0000
  }

  function WordCount(maxHost: uint32): uint32 { (maxHost + 64) % 0x1_0000_0000 / 64 }

  /**
   * Exactly for /1 to /31 there is a first word to mark, and offsets 0 and 1 are of the network:
   * a /0 network gets no word at all, and in a /32 network offset 1 is outside.
   */
  lemma NewFitsIff(ones: nat)
    requires ones <= 32
    ensures WordCount(MaxHost(ones)) > 0 && 1 <= MaxHost(ones) <==> 1 <= ones <= 31
    ensures 1 <= ones <= 31 ==> MaxHost(ones) == Pow2(32 - ones) - 1 && WordCount(MaxHost(ones)) == (MaxHost(ones) + 64) / 64
  {
    hide Pow2;
    SizeBounds(ones);
    if ones == 0 { Wrapped(); } else if ones == 32 { NoHost(); } else { Unwrapped(Pow2(32 - ones)); }
  }

  lemma SizeBounds(ones: nat)
    requires ones <= 32
    ensures ones == 0 ==> Pow2(32 - ones) == 0x1_0000_0000
    ensures ones == 32 ==> Pow2(32 - ones) == 1
    ensures 1 <= ones <= 31 ==> 2 <= Pow2(32 - ones) <= 0x8000_0000
  {
    WordPowers();
    hide Pow2;
    if 1 <= ones <= 31 {
      Pow2Monotone(1, 32 - ones);
      Pow2Monotone(32 - ones, 31);
      SmallPowers();
    } else { SmallPowers(); }
  }

  lemma SmallPowers()
    ensures Pow2(0) == 1 && Pow2(1) == 2
  {}

  lemma Wrapped()
    ensures (0x1_0000_0000 + 0xFFFF_FFFF) % 0x1_0000_0000 == 0xFFFF_FFFF && WordCount(0xFFFF_FFFF) == 0
  {}

  lemma NoHost()
    ensures (1 + 0xFFFF_FFFF) % 0x1_0000_0000 == 0
  {}

  lemma Unwrapped(size: nat)
    requires 2 <= size <= 0x8000_0000
    ensures (size + 0xFFFF_FFFF) % 0x1_0000_0000 == size - 1
    ensures WordCount(size - 1) == (size + 63) / 64 && WordCount(size - 1) > 0
  {}

  /**
   * The first Allocate on a new pool, in the same arithmetic. On /32 both the number of usable
   * offsets and the scan's reset go wrong: it hands out base + 2, which is not of the network.
   */
  method FirstAllocation(n: IPNet) returns (ip: Option<uint32>)
    requires Masked(n) && 1 <= n.ones <= 32
    ensures ip.None? <==> n.ones == 31
    ensures ip.Some? ==> ip.value == (n.ip + 2) % 0x1_0000_0000
    ensures ip.Some? && !(n.ip <= ip.value <= n.ip + MaxHost(n.ones)) <==> n.ones == 32
  {
    hide MaxHost, NetworkOf, SetBit, Test;
    FirstSizes(n);
    var maxHost: int := MaxHost(n.ones);
    var count, next := 2, 2;
    var word := SetBit(SetBit(0, 0), 1);
    var usable: uint32 := (maxHost + 0xFFFF_FFFF) % 0x1_0000_0000;
    if count > usable {
      return None;
    }
    var offset := next;
    if offset >= maxHost {
      offset := 2;
    }
    TwoBits();
    if Test(word, offset) { assert false; }
    return Some((n.ip + offset) % 0x1_0000_0000);
  }

  lemma FirstSizes(n: IPNet)
    requires Masked(n) && 1 <= n.ones <= 32
    ensures n.ones == 32 ==> MaxHost(n.ones) == 0
    ensures n.ones == 31 ==> MaxHost(n.ones) == 1
    ensures n.ones <= 30 ==> 3 <= MaxHost(n.ones) && n.ip + MaxHost(n.ones) < 0x1_0000_0000
  {
    hide WordCount;
    NewFitsIff(n.ones);
    LastAddressFits(n);
    assert Pow2(0) == 1 && Pow2(1) == 2 && Pow2(2) == 4;
    if n.ones <= 30 { Pow2Monotone(2, 32 - n.ones); }
  }

  lemma TwoBits()
    ensures !Test(SetBit(SetBit(0, 0), 1), 2)
  {
    hide SetBit, Test;
    NoBits(2);
    BitSpec(SetBit(0, 0), 1, 2);
    BitSpec(0, 0, 2);
  }

  // ---- The allocator ----

  class Pool {
    const baseIP: uint32
    const maxHost: uint32
    const bitset: array<bv64>
    var count: uint32
    var next: uint32

    /** The assigned offsets: those whose bit is set. */
    ghost var taken: set<nat>

    /**
     * `count` is the number of set bits, no bit above maxHost is set, and every offset below
     * the hint is assigned.
     */
    ghost predicate Valid()
      reads this, bitset
    {
      && 1 <= maxHost < 0x8000_0000
      && baseIP + maxHost < 0x1_0000_0000
      && bitset.Length == (maxHost + 64) / 64
      && taken == Offsets(bitset[..])
      && count == |taken|
      && (forall o | o in taken :: o <= maxHost)
      && (forall o: nat | o < next && o <= maxHost :: o in taken)
    }

    constructor (n: IPNet)
      requires Masked(n) && 1 <= n.ones <= 31
      ensures Valid() && fresh(bitset)
      ensures baseIP == n.ip && maxHost == Pow2(32 - n.ones) - 1
      ensures taken == {0, 1}
    {
      hide Offsets, SetBit, Test, NetworkOf, Pow2, MaxHost, WordCount;
      LastAddressFits(n);
      HostBits(n.ones);
      NewFitsIff(n.ones);
      var last := MaxHost(n.ones);
      var words := WordCount(last);
      var bs := new bv64[words](_ => 0);
      bs[0] := SetBit(SetBit(bs[0], 0), 1);
      baseIP, maxHost, bitset, count, next, taken := n.ip, last, bs, 2, 2, {0, 1};
      new;
      FreshOffsets(bitset[..]);
    }

    static lemma HostBits(ones: nat)
      requires 1 <= ones <= 31
      ensures 2 <= Pow2(32 - ones) <= 0x8000_0000
    {
      Pow2Monotone(1, 32 - ones);
      Pow2Monotone(32 - ones, 31);
      WordPowers();
    }

    /** Only the network and the gateway are marked at first. */
    static lemma FreshOffsets(words: seq<bv64>)
      requires words != [] && words[0] == SetBit(SetBit(0, 0), 1) && forall i | 0 < i < |words| :: words[i] == 0
      ensures Offsets(words) == {0, 1}
    {
      hide Offsets, SetBit, Test;
      forall o: nat | o < 64 * |words| ensures o in Offsets(words) <==> o < 2 {
        NoBits(o % 64);
        if o < 64 {
          BitSpec(SetBit(0, 0), 1, o);
          BitSpec(0, 0, o);
        }
      }
    }

    function OffsetToIP(o: uint32): string
      requires baseIP + o < 0x1_0000_0000
    {
      FormatIP(baseIP + o)
    }

    lemma Bounds()
      requires Valid()
      ensures 1 <= maxHost && baseIP + maxHost < 0x1_0000_0000
    {}

    /** The interface's own address; the source prints "/16" whatever the prefix is. */
    function GatewayIP(): string
      requires baseIP + 1 < 0x1_0000_0000
    {
      OffsetToIP(1) + "/16"
    }

    /** It reads back as offset 1, which the pool never hands out while it is assigned. */
    lemma GatewayIsOffsetOne()
      requires Valid()
      ensures baseIP + 1 < 0x1_0000_0000 && TextOffset(baseIP, maxHost, GatewayIP()) == Some(1)
    {
      hide FormatIP, ParseIP, BeforeSlash, Offsets;
      ParseFormat(baseIP + 1);
      var ip := FormatIP(baseIP + 1);
      assert GatewayIP()[..|ip|] == ip;
      BeforeSlashAt(GatewayIP(), |ip|);
    }

    /** Reads the bit of one offset. */
    method IsSet(offset: uint32) returns (b: bool)
      requires Valid() && offset <= maxHost
      ensures b <==> offset in taken
    {
      hide Offsets, Test;
      var word, bit := offset / 64, offset % 64;
      b := Test(bitset[word], bit);
    }

    /** Sets or clears the bit of one offset. */
    method Write(offset: uint32, on: bool)
      requires offset / 64 < bitset.Length && taken == Offsets(bitset[..])
      modifies this`taken, bitset
      ensures taken == Offsets(bitset[..])
      ensures taken == if on then old(taken) + {offset} else old(taken) - {offset}
    {
      hide Offsets, SetBit, ClearBit;
      var word, bit := offset / 64, offset % 64;
      OffsetsUpdate(bitset[..], offset, on);
      ghost var words := bitset[..];
      bitset[word] := if on then SetBit(bitset[word], bit) else ClearBit(bitset[word], bit);
      assert bitset[..] == words[word := bitset[word]];
      taken := if on then taken + {offset} else taken - {offset};
    }

    /**
     * The rotating scan from the hint. It stops at the smallest free offset, although nothing
     * below the hint is looked at: there is nothing free below the hint.
     */
    method Scan() returns (offset: uint32)
      requires Valid() && |taken| < maxHost
      ensures NextOffset(taken, maxHost) == Some(offset)
    {
      hide Offsets, FirstFree, Test;
      RoomLeft(taken, maxHost);
      ghost var free := FirstFree(taken, 0, maxHost);
      offset := next;
      while true
        invariant next <= offset <= free
        decreases free - offset
      {
        // The source resets the scan to 2 when offset >= maxHost: it never is.
        if offset >= maxHost { assert false; }
        var b := IsSet(offset);
        if !b { return; }
        offset := offset + 1;
        // The source gives up when the scan comes back to the hint: it never does.
        if offset == next { assert false; }
      }
    }

    method Allocate() returns (r: Result<string, PoolError>)
      requires Valid()
      modifies this, bitset
      ensures Valid()
      ensures match NextOffset(old(taken), maxHost)
        case None => r == Err(Exhausted) && taken == old(taken)
        case Some(o) => r == Ok(HostText(baseIP, o)) && taken == old(taken) + {o}
    {
      hide Offsets, FormatIP, FirstFree, Test, Below, NextOffset;
      NextOffsetIsLowest(taken, maxHost);
      var usable: uint32 := maxHost - 1;
      if count > usable {
        return Err(Exhausted);
      }
      var offset := Scan();
      Write(offset, true);
      count := count + 1;
      next := offset + 1;
      return Ok(OffsetToIP(offset) + "/32");
    }

    method Release(ip: string) returns (r: Result<(), PoolError>)
      requires Valid()
      modifies this, bitset
      ensures Valid()
      ensures match TextOffset(baseIP, maxHost, ip)
        case None => r == Err(NotFound) && taken == old(taken)
        case Some(o) =>
          && r == (if o in old(taken) then Ok(()) else Err(NotFound))
          && taken == old(taken) - {o}
    {
      hide Offsets, ParseIP, BeforeSlash, Test;
      var cleanIP := StripMask(ip);
      var o := IpToOffset(baseIP, maxHost, cleanIP);
      if o.None? {
        return Err(NotFound);
      }
      var offset := o.value;
      var b := IsSet(offset);
      if !b {
        return Err(NotFound);
      }
      Write(offset, false);
      count := count - 1;
      if offset < next {
        next := offset;
      }
      return Ok(());
    }

    method Reserve(ip: string) returns (r: Result<(), PoolError>)
      requires Valid()
      modifies this, bitset
      ensures Valid()
      ensures match TextOffset(baseIP, maxHost, ip)
        case None => r == Err(NotFound) && taken == old(taken)
        case Some(o) =>
          && r == (if o in old(taken) then Err(AlreadyUsed) else Ok(()))
          && taken == old(taken) + {o}
    {
      hide Offsets, ParseIP, BeforeSlash, Test, Below;
      var cleanIP := StripMask(ip);
      var o := IpToOffset(baseIP, maxHost, cleanIP);
      if o.None? {
        return Err(NotFound);
      }
      var offset := o.value;
      var b := IsSet(offset);
      if b {
        return Err(AlreadyUsed);
      }
      Write(offset, true);
      CountFits();
      count := count + 1;
      return Ok(());
    }

    /** At most one offset per host, so the counter cannot wrap around. */
    lemma CountFits()
      requires 1 <= maxHost < 0x8000_0000
      requires forall o | o in taken :: o <= maxHost
      ensures |taken| <= maxHost + 1
    {
      SubsetCard(taken, Below(maxHost + 1));
    }

    method AssignedCount() returns (n: int)
      requires Valid()
      ensures n == |taken|
    {
      n := count;
    }

    /** AssignedCount + FreeCount == maxHost + 1: the broadcast offset is counted as free. */
    method FreeCount() returns (n: int)
      requires Valid()
      ensures n + |taken| == maxHost + 1
    {
      hide Ones, Offsets, Test;
      var taken := 0;
      for i := 0 to bitset.Length
        invariant taken == |Offsets(bitset[..i])|
      {
        assert bitset[..i + 1][..i] == bitset[..i];
        OffsetsCard(bitset[..i + 1]);
        taken := taken + Ones(bitset[i], 64);
      }
      assert bitset[..bitset.Length] == bitset[..];
      var usable := maxHost - 1;
      n := usable - (taken - 2);
    }
  }
}
