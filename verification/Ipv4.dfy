/** Dotted-quad addresses and IPv4 networks as net.ParseIP, net.ParseCIDR and their String print and read them. */
module Ipv4 {
  import opened Common
  import opened Text

  type octet = x: int | 0 <= x < 256

  /** The four bytes of an address, most significant first. */
  datatype Quad = Quad(a: octet, b: octet, c: octet, d: octet)

  function Bytes(ip: uint32): Quad { Quad(ip / 0x100_0000, ip / 0x1_0000 % 256, ip / 256 % 256, ip % 256) }

  function Number(q: Quad): uint32 { q.a * 0x100_0000 + q.b * 0x1_0000 + q.c * 256 + q.d }

  lemma BytesOfNumber(q: Quad)
    ensures Bytes(Number(q)) == q
  {
    var n := Number(q);
    var high, mid := q.a * 256 + q.b, q.a * 0x1_0000 + q.b * 256 + q.c;
    assert n == 256 * mid + q.d && n / 256 == mid && n % 256 == q.d;
    assert mid == 256 * high + q.c && mid % 256 == q.c;
    assert n == 0x1_0000 * high + (q.c * 256 + q.d) && n / 0x1_0000 == high;
    assert high % 256 == q.b;
    assert n / 0x100_0000 == q.a;
  }

  lemma NumberOfBytes(ip: uint32)
    ensures Number(Bytes(ip)) == ip
  {
    var mid, high := ip / 256, ip / 0x1_0000;
    assert ip == 256 * mid + ip % 256 && mid / 256 == high;
    assert mid == 256 * high + mid % 256 && high / 256 == ip / 0x100_0000;
    assert high == 256 * (high / 256) + high % 256;
  }

  function QuadText(q: Quad): seq<string> { [Decimal(q.a), Decimal(q.b), Decimal(q.c), Decimal(q.d)] }

  function FormatIP(ip: uint32): string { Join(QuadText(Bytes(ip)), '.') }

  predicate IsOctet(s: string) { Canonical(s) && Value(s) < 256 }

  predicate IsQuad(f: seq<string>) { |f| == 4 && IsOctet(f[0]) && IsOctet(f[1]) && IsOctet(f[2]) && IsOctet(f[3]) }

  function QuadValue(f: seq<string>): Quad
    requires IsQuad(f)
  {
    Quad(Value(f[0]), Value(f[1]), Value(f[2]), Value(f[3]))
  }

  /** net.ParseIP on text without a colon. */
  function ParseIP(s: string): Option<uint32> {
    var f := Split(s, '.');
    if IsQuad(f) then Some(Number(QuadValue(f))) else None
  }

  lemma OctetText(n: octet)
    ensures IsOctet(Decimal(n)) && Value(Decimal(n)) == n && '.' !in Decimal(n)
  {
    ValueOfDecimal(n);
  }

  lemma QuadTextBack(q: Quad)
    ensures IsQuad(QuadText(q)) && QuadValue(QuadText(q)) == q
    ensures forall f | f in QuadText(q) :: '.' !in f && AllDigits(f)
  {
    OctetText(q.a);
    OctetText(q.b);
    OctetText(q.c);
    OctetText(q.d);
  }

  lemma {:induction false} DotsAndDigits(o: seq<string>)
    requires |o| >= 1 && forall f | f in o :: AllDigits(f)
    ensures forall c | c in Join(o, '.') :: IsDigit(c) || c == '.'
  {
    if |o| > 1 {
      DotsAndDigits(o[1..]);
      assert AllDigits(o[0]);
    } else {
      assert AllDigits(o[0]);
    }
  }

  /** Printing then parsing gives the address back. */
  lemma ParseFormat(ip: uint32)
    ensures ParseIP(FormatIP(ip)) == Some(ip)
    ensures forall c | c in FormatIP(ip) :: IsDigit(c) || c == '.'
  {
    var o := QuadText(Bytes(ip));
    QuadTextBack(Bytes(ip));
    SplitJoin(o, '.');
    DotsAndDigits(o);
    NumberOfBytes(ip);
  }

  /** Whatever parses is the canonical text, so parsing then printing is the identity too. */
  lemma FormatParse(s: string)
    requires ParseIP(s).Some?
    ensures FormatIP(ParseIP(s).value) == s
  {
    var f := Split(s, '.');
    JoinSplit(s, '.');
    BytesOfNumber(QuadValue(f));
    DecimalOfValue(f[0]);
    DecimalOfValue(f[1]);
    DecimalOfValue(f[2]);
    DecimalOfValue(f[3]);
    assert QuadText(QuadValue(f)) == f;
  }

  /** The printed address is injective in the address. */
  lemma FormatInjective(a: uint32, b: uint32)
    requires FormatIP(a) == FormatIP(b)
    ensures a == b
  {
    ParseFormat(a);
    ParseFormat(b);
  }

  // ---- Networks ----

  /** A network address with its prefix length. */
  datatype IPNet = IPNet(ip: uint32, ones: nat)

  /** What net.ParseCIDR returns: no host bit is left set. */
  predicate Masked(n: IPNet) { n.ones <= 32 && NetworkOf(n.ip, 32 - n.ones) == n.ip }

  function Host(ip: uint32): IPNet { IPNet(ip, 32) }

  function FormatNet(n: IPNet): string { FormatIP(n.ip) + "/" + Decimal(n.ones) }

  /** The address with its `bits` host bits cleared. */
  function NetworkOf(ip: uint32, bits: nat): (r: uint32)
    ensures r <= ip
  {
    Pow2Monotone(0, bits);
    RemainderBound(ip, Pow2(bits));
    ip - ip % Pow2(bits)
  }

  lemma RemainderBound(n: nat, d: nat)
    requires d >= 1
    ensures 0 <= n % d <= n
  {
    if n < d { assert n % d == n; }
  }

  function ParseCIDR(s: string): Option<IPNet> {
    match Cut(s, '/')
    case None => None
    case Some((addr, mask)) =>
      if ParseIP(addr).Some? && mask != "" && AllDigits(mask) && Value(mask) <= 32 then
        Some(IPNet(NetworkOf(ParseIP(addr).value, 32 - Value(mask)), Value(mask)))
      else
        None
  }

  lemma ParseFormatNet(n: IPNet)
    requires Masked(n)
    ensures ParseCIDR(FormatNet(n)) == Some(n)
    ensures forall c | c in FormatNet(n) :: IsDigit(c) || c == '.' || c == '/'
  {
    hide ParseIP, FormatIP, Decimal, Value, Cut, NetworkOf;
    ParseFormat(n.ip);
    CutAt(FormatIP(n.ip), '/', Decimal(n.ones));
    ValueOfDecimal(n.ones);
  }

  ghost predicate IsTimes(n: nat, d: nat, q: nat) { n == d * q }

  /** An address with any prefix length reads as the network it lies in: the multiple of the network's size just below. */
  lemma ParseInNet(ip: uint32, ones: nat)
    requires ones <= 32
    ensures var r, size := ParseCIDR(FormatIP(ip) + "/" + Decimal(ones)), Pow2(32 - ones);
      && r.Some? && r.value.ones == ones && r.value.ip <= ip < r.value.ip + size
      && exists q: nat :: IsTimes(r.value.ip, size, q)
  {
    hide ParseIP, FormatIP, Decimal, Value, Cut, Pow2;
    ParseFormat(ip);
    CutAt(FormatIP(ip), '/', Decimal(ones));
    ValueOfDecimal(ones);
    Pow2Monotone(0, 32 - ones);
    LowestMultiple(ip, Pow2(32 - ones));
  }

  lemma LowestMultiple(n: nat, d: nat)
    requires d >= 1
    ensures 0 <= n % d < d && IsTimes(n - n % d, d, n / d)
  {
    RemainderBound(n, d);
  }

  /** A single address with /32 appended reads back as that one-address network. */
  lemma ParseHost(ip: uint32)
    ensures ParseCIDR(FormatIP(ip) + "/32") == Some(Host(ip)) && FormatNet(Host(ip)) == FormatIP(ip) + "/32"
  {
    assert NetworkOf(ip, 0) == ip by { assert Pow2(0) == 1; }
    ParseFormatNet(Host(ip));
    assert Decimal(32) == Decimal(3) + "2" == "32";
    assert FormatIP(ip) + "/" + "32" == FormatIP(ip) + "/32";
  }
}
