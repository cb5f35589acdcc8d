/** What the tests for an address ending in 255 mean for the subnets that the addresses belong to
    (src/config.rs, src/packet.rs). */
module Subnets {
  import opened Bits
  import opened Net
  import opened Config
  import opened ConfigPrinter
  import opened Packet

  /** `a` shares the first `n` bits with `c`. */
  predicate InSubnet(a: Ipv4Addr, c: Ipv4Addr, n: nat)
    requires n <= 32
  {
    a.U32() / BlockSize(n) == c.U32() / BlockSize(n)
  }

  /** `a` is the last address of its subnet with a prefix of `n` bits. */
  predicate IsSubnetBroadcast(a: Ipv4Addr, n: nat)
    requires n <= 32
  {
    a.U32() % BlockSize(n) == BlockSize(n) - 1
  }

  /** The first three octets as a number. */
  function Upper(a: Ipv4Addr): nat {
    0x1_0000 * (a.o0 as int) + 0x100 * (a.o1 as int) + a.o2
  }

  lemma UpperInjective(a: Ipv4Addr, c: Ipv4Addr)
    requires Upper(a) == Upper(c)
    ensures a.o0 == c.o0 && a.o1 == c.o1 && a.o2 == c.o2
  {
    assert a.o0 == c.o0;
    assert a.o1 == c.o1;
  }

  // ---------------------------------------------------------------- prefixes of up to 24 bits

  lemma ShortDivision(u: nat, o: nat, m: nat)
    requires m > 0 && o < 0x100
    ensures (0x100 * u + o) / (0x100 * m) == u / m
    ensures (0x100 * u + o) % (0x100 * m) == 0x100 * (u % m) + o
  {
    var q, r := u / m, u % m;
    MulAssociate(0x100, m, q, r);
    DivModUnique(0x100 * u + o, 0x100 * m, q, 0x100 * r + o);
  }

  lemma ShortPrefix(a: Ipv4Addr, n: nat) returns (m: nat)
    requires n <= 24
    ensures m == Pow2(24 - n) && m > 0 && BlockSize(n) == 0x100 * m
    ensures a.U32() / BlockSize(n) == Upper(a) / m
    ensures a.U32() % BlockSize(n) == 0x100 * (Upper(a) % m) + a.o3
  {
    m := Pow2(24 - n);
    assert Pow2(8) == 0x100;
    Pow2Add(8, 24 - n);
    ShortDivision(Upper(a), a.o3, m);
  }

  /** Up to /24, a broadcast address ends in 255. */
  lemma ShortBroadcastIff(a: Ipv4Addr, n: nat)
    requires n <= 24
    ensures IsSubnetBroadcast(a, n) <==> a.o3 == 255 && Upper(a) % Pow2(24 - n) == Pow2(24 - n) - 1
  {
    var m := ShortPrefix(a, n);
  }

  lemma ClearLowestDigit(k: nat, h: nat)
    requires h > 0
    ensures (k - k % 2) / (2 * h) == k / (2 * h) && (k - k % 2) % (2 * h) != 2 * h - 1
  {
    var x := k - k % 2;
    assert x / 2 == k / 2 && x % 2 == 0;
    QuotientOfQuotient(x, 2, h);
    QuotientOfQuotient(k, 2, h);
    ModDouble(x, h);
  }

  /** Below /24, every subnet has addresses ending in 255 that are not its broadcast address. */
  lemma InnerAddress(c: Ipv4Addr, n: nat) returns (a: Ipv4Addr)
    requires n <= 23
    ensures InSubnet(a, c, n) && !IsSubnetBroadcast(a, n)
    ensures a.o0 == c.o0 && a.o3 == 255 && a != LIMITED_BROADCAST
  {
    a := Ipv4Addr(c.o0, c.o1, c.o2 - c.o2 % 2, 255);
    assert Upper(a) == Upper(c) - Upper(c) % 2;
    var m := ShortPrefix(a, n);
    var _ := ShortPrefix(c, n);
    assert m == 2 * Pow2(23 - n);
    ClearLowestDigit(Upper(c), Pow2(23 - n));
    ShortBroadcastIff(a, n);
  }

  // ---------------------------------------------------------------- prefixes of 24 bits and more

  lemma LongBlocks(n: nat) returns (t: nat)
    requires 24 <= n <= 32
    ensures t == Pow2(n - 24) && t > 0 && BlockSize(n) * t == 0x100
  {
    t := Pow2(n - 24);
    assert Pow2(8) == 0x100;
    Pow2Add(32 - n, n - 24);
  }

  lemma OctetInBlock(x: nat, d: nat, t: nat)
    requires d > 0 && d * t == 0x100 && x < 0x100
    ensures x / d < t
    ensures x - x % d + d <= 0x100
  {
    var q, r := x / d, x % d;
    if q >= t {
      MulAtLeast(d, t, q);
      assert false;
    }
    MulAtLeast(d, q + 1, t);
  }

  lemma MulAtLeast(d: nat, s: nat, t: nat)
    requires s <= t
    ensures d * s <= d * t
  {
  }

  lemma LongDivision(u: nat, o: nat, d: nat, t: nat)
    requires d > 0 && d * t == 0x100
    ensures (0x100 * u + o) / d == t * u + o / d
    ensures (0x100 * u + o) % d == o % d
  {
    var q, r := o / d, o % d;
    MulAssociate(d, t, u, q);
    DivModUnique(0x100 * u + o, d, t * u + q, r);
  }

  lemma LongPrefix(a: Ipv4Addr, n: nat, t: nat)
    requires 24 <= n <= 32 && t > 0 && BlockSize(n) * t == 0x100
    ensures a.o3 / BlockSize(n) < t
    ensures a.U32() / BlockSize(n) == t * Upper(a) + a.o3 / BlockSize(n)
    ensures a.U32() % BlockSize(n) == a.o3 % BlockSize(n)
  {
    OctetInBlock(a.o3, BlockSize(n), t);
    LongDivision(Upper(a), a.o3, BlockSize(n), t);
  }

  /** The last octet of the broadcast address. */
  function LastOctet(c: Ipv4Addr, n: nat): byte
    requires 24 <= n <= 32
  {
    var d := BlockSize(n);
    var t := Pow2(n - 24);
    assert d * t == 0x100 by { var _ := LongBlocks(n); }
    OctetInBlock(c.o3, d, t);
    c.o3 - c.o3 % d + d - 1
  }

  lemma LastInBlock(x: nat, d: nat)
    requires d > 0
    ensures (x - x % d + d - 1) / d == x / d && (x - x % d + d - 1) % d == d - 1
  {
    DivModUnique(x - x % d + d - 1, d, x / d, d - 1);
  }

  lemma LastAddress(c: Ipv4Addr, n: nat) returns (a: Ipv4Addr)
    requires 24 <= n <= 32
    ensures a == Ipv4Addr(c.o0, c.o1, c.o2, LastOctet(c, n))
    ensures InSubnet(a, c, n) && IsSubnetBroadcast(a, n)
  {
    a := Ipv4Addr(c.o0, c.o1, c.o2, LastOctet(c, n));
    var t := LongBlocks(n);
    LongPrefix(a, n, t);
    LongPrefix(c, n, t);
    LastInBlock(c.o3, BlockSize(n));
  }

  lemma SameQuotients(t: nat, u: nat, v: nat, q: nat, r: nat)
    requires q < t && r < t && t * u + q == t * v + r
    ensures u == v && q == r
  {
    DivModUnique(t * u + q, t, u, q);
    DivModUnique(t * u + q, t, v, r);
  }

  lemma SameBlock(d: nat, t: nat, x: nat, u: nat, o: nat, y: nat, v: nat, p: nat)
    requires d > 0 && o / d < t && p / d < t
    requires x / d == t * u + o / d && y / d == t * v + p / d && x / d == y / d
    ensures u == v && o / d == p / d
  {
    SameQuotients(t, u, v, o / d, p / d);
  }

  lemma SameLongSubnet(a: Ipv4Addr, c: Ipv4Addr, n: nat)
    requires 24 <= n <= 32 && InSubnet(a, c, n)
    ensures Upper(a) == Upper(c) && a.o3 / BlockSize(n) == c.o3 / BlockSize(n)
  {
    var t := LongBlocks(n);
    LongPrefix(a, n, t);
    LongPrefix(c, n, t);
    SameBlock(BlockSize(n), t, a.U32(), Upper(a), a.o3, c.U32(), Upper(c), c.o3);
  }

  lemma LastOfLastBlock(x: nat, y: nat, d: nat)
    requires d > 0 && x / d == y / d && y - y % d + d == 0x100
    ensures x == 0xFF <==> x % d == d - 1
  {
    assert x - x % d == y - y % d;
  }

  /** From /24 on, in a subnet whose last address ends in 255, no other address does. */
  lemma LongBroadcastIff(a: Ipv4Addr, c: Ipv4Addr, n: nat)
    requires 24 <= n <= 32 && InSubnet(a, c, n) && LastOctet(c, n) == 255
    ensures a.o0 == c.o0
    ensures a.o3 == 255 <==> IsSubnetBroadcast(a, n)
  {
    SameLongSubnet(a, c, n);
    UpperInjective(a, c);
    var t := LongBlocks(n);
    LongPrefix(a, n, t);
    LastOfLastBlock(a.o3, c.o3, BlockSize(n));
  }

  // ---------------------------------------------------------------- the two tests

  /** What a rule for `directed` asks of the destination. */
  predicate DirectedMatches(a: Ipv4Addr) {
    a.o3 == 255 && a != LIMITED_BROADCAST
  }

  /** A parsed `directed` rule puts no other condition on the destination address. */
  lemma DirectedRuleIff(r: Rule, pkt: PacketInfo, other: Ipv4Addr)
    requires WellFormedRule(r) && r.broadcastType == Directed && DirectedMatches(other)
    ensures r.Matches(pkt) <==> r.Matches(pkt.(dstIp := other)) && DirectedMatches(pkt.dstIp)
  {
  }

  /** A directed broadcast address of a subnet with a prefix of `n` bits. */
  predicate IsDirectedBroadcast(a: Ipv4Addr, n: nat)
    requires n <= 32
  {
    !a.IsMulticast() && a != LIMITED_BROADCAST && IsSubnetBroadcast(a, n)
  }

  /** An address that a packet may come from, in a subnet with a prefix of `n` bits. */
  predicate IsValidSource(a: Ipv4Addr, n: nat)
    requires n <= 32
  {
    a != UNSPECIFIED && !a.IsMulticast() && a != LIMITED_BROADCAST && !IsSubnetBroadcast(a, n)
  }

  /** The subnet of `c` has a prefix of at least 24 bits and its last address ends in 255. */
  predicate EndsIn255(c: Ipv4Addr, n: nat)
    requires n <= 32
  {
    n >= 24 && LastOctet(c, n) == 255
  }

  lemma LastOctetIsLarge(c: Ipv4Addr, n: nat)
    requires 24 <= n <= 30
    ensures LastOctet(c, n) >= 3
  {
    Pow2Monotone(2, 32 - n);
    assert Pow2(2) == 4;
    var t := LongBlocks(n);
    OctetInBlock(c.o3, BlockSize(n), t);
  }

  /** An address of the subnet of `c` for which the last octet tells the wrong thing, if there is one. */
  lemma WrongAddress(c: Ipv4Addr, n: nat) returns (a: Ipv4Addr)
    requires n <= 30 && !EndsIn255(c, n)
    ensures InSubnet(a, c, n) && a.o0 == c.o0 && a != LIMITED_BROADCAST && a != UNSPECIFIED
    ensures a.o3 == 255 <==> !IsSubnetBroadcast(a, n)
  {
    if n >= 24 {
      a := LastAddress(c, n);
      LastOctetIsLarge(c, n);
    } else {
      a := InnerAddress(c, n);
    }
  }

  /** `directed` means a directed broadcast to the subnet of `c` exactly when that has a prefix of at
      least 24 bits and its last address ends in 255. In a larger one it also matches host addresses,
      in a smaller one whose last address ends otherwise it misses the broadcast address. */
  lemma DirectedExactIff(c: Ipv4Addr, n: nat)
    requires n <= 30 && !c.IsMulticast()
    ensures (forall a | InSubnet(a, c, n) :: DirectedMatches(a) <==> IsDirectedBroadcast(a, n))
            <==> EndsIn255(c, n)
  {
    if EndsIn255(c, n) {
      forall a | InSubnet(a, c, n)
        ensures DirectedMatches(a) <==> IsDirectedBroadcast(a, n)
      {
        LongBroadcastIff(a, c, n);
      }
    } else {
      var a := WrongAddress(c, n);
      assert DirectedMatches(a) != IsDirectedBroadcast(a, n);
    }
  }

  /** The parser tells valid from invalid source addresses in the subnet of `c` under the same
      condition. In a larger subnet it rejects hosts, in a smaller one whose last address ends
      otherwise it lets the broadcast address through. */
  lemma SourceExactIff(c: Ipv4Addr, n: nat)
    requires n <= 30 && !c.IsMulticast()
    ensures (forall a | InSubnet(a, c, n) :: IsAcceptedSource(a) <==> IsValidSource(a, n))
            <==> EndsIn255(c, n)
  {
    if EndsIn255(c, n) {
      forall a | InSubnet(a, c, n)
        ensures IsAcceptedSource(a) <==> IsValidSource(a, n)
      {
        LongBroadcastIff(a, c, n);
      }
    } else {
      var a := WrongAddress(c, n);
      assert IsAcceptedSource(a) != IsValidSource(a, n);
    }
  }

  /** One address: from /24 on, one that ends in 255 is the broadcast address of its subnet; up to /24,
      the broadcast address ends in 255. */
  lemma LastOctetOfBroadcast(a: Ipv4Addr, n: nat)
    requires n <= 32
    ensures n <= 24 && IsSubnetBroadcast(a, n) ==> a.o3 == 255
    ensures n >= 24 && a.o3 == 255 ==> IsSubnetBroadcast(a, n)
  {
    if n <= 24 {
      ShortBroadcastIff(a, n);
    } else {
      var t := LongBlocks(n);
      LongPrefix(a, n, t);
      LastOfAll(BlockSize(n), t);
    }
  }

  lemma LastOfAll(d: nat, t: nat)
    requires d > 0 && d * t == 0x100
    ensures 0xFF % d == d - 1
  {
    assert d * (t - 1) == d * t - d;
    DivModUnique(0xFF, d, t - 1, d - 1);
  }
}
