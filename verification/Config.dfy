/** Relay rules and the matching of a packet against them (src/config.rs). */
module Config {
  import opened Bits
  import opened Net

  datatype Action = Allow | Deny

  datatype Protocol = Udp | Any

  datatype IpMatcher = Any | Exact(ip: Ipv4Addr) | Cidr(net: u32, mask: u32) {
    predicate Matches(a: Ipv4Addr) {
      match this
      case Any => true
      case Exact(ip) => ip == a
      case Cidr(net, mask) => BitAnd(a.U32(), mask) == net
    }
  }

  datatype PortMatcher = Any | Exact(port: u16) | Range(start: u16, end: u16) {
    predicate Matches(p: u16) {
      match this
      case Any => true
      case Exact(port) => port == p
      case Range(start, end) => start <= p <= end
    }
  }

  datatype BroadcastType = Any | Limited | Directed

  datatype NatOptions = NatOptions(
    sourceIp: Option<Ipv4Addr>,
    destIp: Option<Ipv4Addr>,
    sourcePort: Option<u16>,
    destPort: Option<u16>)

  const NO_NAT := NatOptions(None, None, None, None)

  datatype PacketInfo = PacketInfo(
    protocol: Protocol,
    srcIp: Ipv4Addr,
    dstIp: Ipv4Addr,
    srcPort: u16,
    dstPort: u16)

  datatype Rule = Rule(
    action: Action,
    protocol: Protocol,
    srcIp: IpMatcher,
    srcPort: PortMatcher,
    dstIp: IpMatcher,
    dstPort: PortMatcher,
    broadcastType: BroadcastType,
    natOptions: NatOptions)
  {
    predicate Matches(pkt: PacketInfo) {
      && (protocol == Protocol.Any || protocol == pkt.protocol)
      && srcPort.Matches(pkt.srcPort)
      && dstPort.Matches(pkt.dstPort)
      && srcIp.Matches(pkt.srcIp)
      && dstIp.Matches(pkt.dstIp)
      && match broadcastType
         case Any => true
         case Limited => pkt.dstIp == LIMITED_BROADCAST
         case Directed => pkt.dstIp.o3 == 255 && pkt.dstIp != LIMITED_BROADCAST
    }
  }

  /** The mask of a prefix of `n` bits. */
  function PrefixMask(n: nat): u32
    requires n <= 32
  {
    if n == 0 then 0 else ShiftLeft32(0xFFFF_FFFF, 32 - n)
  }

  /** The matcher that the notation `addr/n` stands for. */
  function CidrMatcher(addr: Ipv4Addr, n: nat): IpMatcher
    requires n <= 32
  {
    Cidr(BitAnd(addr.U32(), PrefixMask(n)), PrefixMask(n))
  }

  /** How many addresses share a prefix of `n` bits. */
  function BlockSize(n: nat): nat
    requires n <= 32
  {
    Pow2(32 - n)
  }

  lemma PrefixMaskValue(n: nat)
    requires n <= 32
    ensures PrefixMask(n) == 0x1_0000_0000 - BlockSize(n)
  {
    Pow2Of32();
    if n > 0 {
      Pow2Monotone(32 - n, 31);
      assert Pow2(31) * 2 == Pow2(32);
      ShiftedOnes(Pow2(32 - n));
    }
  }

  lemma ShiftedOnes(m: nat)
    requires 0 < m < 0x1_0000_0000
    ensures (0xFFFF_FFFF * m) % 0x1_0000_0000 == 0x1_0000_0000 - m
  {
    DivModUnique(0xFFFF_FFFF * m, 0x1_0000_0000, m - 1, 0x1_0000_0000 - m);
  }

  /** Masking with a prefix rounds down to the start of the block. */
  lemma MaskRoundsDown(x: u32, n: nat)
    requires n <= 32
    ensures BitAnd(x, PrefixMask(n)) == x - x % BlockSize(n)
  {
    Pow2Of32();
    PrefixMaskValue(n);
    AndHighMask(x, 32, 32 - n);
  }

  /** `addr/n` matches exactly the block of `2^(32-n)` addresses around `addr`, which is also the set
      of addresses with the same leading `n` bits (section 3.1 of RFC 4632). */
  lemma CidrIsInterval(addr: Ipv4Addr, n: nat, a: Ipv4Addr)
    requires n <= 32
    ensures var m := CidrMatcher(addr, n);
            && (m.Matches(a) <==> m.net <= a.U32() < m.net + BlockSize(n))
            && (m.Matches(a) <==> a.U32() / BlockSize(n) == addr.U32() / BlockSize(n))
            && m.Matches(addr)
  {
    MaskRoundsDown(addr.U32(), n);
    MaskRoundsDown(a.U32(), n);
    RoundDownIsQuotient(a.U32(), addr.U32(), BlockSize(n));
  }

  /** Of two prefix matchers, the longer prefix lies inside the shorter one or they share no address. */
  lemma CidrNestedOrDisjoint(a1: Ipv4Addr, n1: nat, a2: Ipv4Addr, n2: nat)
    requires n1 <= n2 <= 32
    ensures var wide, narrow := CidrMatcher(a1, n1), CidrMatcher(a2, n2);
            || (forall a: Ipv4Addr | narrow.Matches(a) :: wide.Matches(a))
            || (forall a: Ipv4Addr | narrow.Matches(a) :: !wide.Matches(a))
  {
    var wide, narrow := CidrMatcher(a1, n1), CidrMatcher(a2, n2);
    var d, t := BlockSize(n2), Pow2(n2 - n1);
    assert BlockSize(n1) == d * t by {
      Pow2Add(32 - n2, n2 - n1);
    }
    forall a: Ipv4Addr | narrow.Matches(a)
      ensures wide.Matches(a) <==> a2.U32() / BlockSize(n1) == a1.U32() / BlockSize(n1)
    {
      CidrIsInterval(a1, n1, a);
      CidrIsInterval(a2, n2, a);
      QuotientOfQuotient(a.U32(), d, t);
      QuotientOfQuotient(a2.U32(), d, t);
    }
  }
}
