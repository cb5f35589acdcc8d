/** In-place rewriting of a packet: NAT, loop marker and checksums (src/nat.rs). */
module Nat {
  import opened Net
  import opened Checksum
  import opened Config
  import opened Packet

  datatype NatOutcome = Rewritten | MalformedHeader | InvalidUdp

  // ---------------------------------------------------------------- the rewriting, on values

  /** The destination address a packet leaves with. */
  function FinalDestination(dst: Ipv4Addr, opts: NatOptions, destBroadcast: Ipv4Addr): Ipv4Addr {
    match opts.destIp
    case Some(newDst) => newDst
    case None => if dst.IsMulticast() then dst else destBroadcast
  }

  /** Addresses, TTL and identification of the IP header. */
  function RewriteIp(p: seq<byte>, opts: NatOptions, destBroadcast: Ipv4Addr): (q: seq<byte>)
    requires |p| >= 20
    ensures |q| == |p|
  {
    var p1 := if opts.sourceIp.Some? then PutAddr(p, 12, opts.sourceIp.value) else p;
    var p2 := PutAddr(p1, 16, FinalDestination(AddrAt(p1, 16), opts, destBroadcast));
    PutU16(p2[8 := 1], 4, RELAY_MARKER_IP_ID)
  }

  function RewritePorts(p: seq<byte>, hl: nat, opts: NatOptions): (q: seq<byte>)
    requires hl + 8 <= |p|
    ensures |q| == |p|
  {
    var p1 := if opts.sourcePort.Some? then PutU16(p, hl, opts.sourcePort.value) else p;
    if opts.destPort.Some? then PutU16(p1, hl + 2, opts.destPort.value) else p1
  }

  /** The words of the UDP pseudo-header (RFC 768, "Fields"). */
  function PseudoSum(src: Ipv4Addr, dst: Ipv4Addr, length: nat): nat {
    WordSum(src.Octets() + dst.Octets() + [0, PROTOCOL_UDP]) + length
  }

  /** The checksum of everything behind the IP header, its checksum field taken as zero. */
  function UdpChecksum(p: seq<byte>, hl: nat): u16
    requires 20 <= hl && hl + 8 <= |p|
  {
    Complement(PseudoSum(AddrAt(p, 12), AddrAt(p, 16), |p| - hl) + WordSum(PutU16(p[hl..], 6, 0)))
  }

  function HeaderChecksum(p: seq<byte>, hl: nat): u16
    requires 20 <= hl <= |p|
  {
    Complement(WordSum(PutU16(p[..hl], 10, 0)))
  }

  function StoreUdpChecksum(p: seq<byte>, hl: nat): (q: seq<byte>)
    requires 20 <= hl && hl + 8 <= |p|
    ensures |q| == |p|
  {
    PutU16(p, hl + 6, UdpChecksum(p, hl))
  }

  function StoreHeaderChecksum(p: seq<byte>, hl: nat): (q: seq<byte>)
    requires 20 <= hl <= |p|
    ensures |q| == |p|
  {
    PutU16(p, 10, HeaderChecksum(p, hl))
  }

  /** What happens to the bytes behind the IP header: nothing unless the protocol is UDP. */
  function RewriteTransport(p: seq<byte>, hl: nat, opts: NatOptions): (q: seq<byte>)
    requires 20 <= hl <= |p|
    requires p[9] == PROTOCOL_UDP ==> hl + 8 <= |p|
    ensures |q| == |p|
  {
    if p[9] == PROTOCOL_UDP then StoreUdpChecksum(RewritePorts(p, hl, opts), hl) else p
  }

  /** The result of rewriting a packet and the bytes it leaves behind. A packet too short for a UDP
      header has its IP header edited before the failure is noticed. */
  function Rewrite(p: seq<byte>, opts: NatOptions, destBroadcast: Ipv4Addr): (r: (NatOutcome, seq<byte>))
    ensures |r.1| == |p|
  {
    match ValidateIpv4Header(p)
    case None => (MalformedHeader, p)
    case Some(hl) =>
      var ip := RewriteIp(p, opts, destBroadcast);
      if ip[9] == PROTOCOL_UDP && |p| < hl + 8 then (InvalidUdp, ip)
      else (Rewritten, StoreHeaderChecksum(RewriteTransport(ip, hl, opts), hl))
  }

  // ---------------------------------------------------------------- the rewriting, in place

  // The packet is the prefix buf[..len] of a larger buffer, as a mutable slice is.

  method SetU16(buf: array<byte>, len: nat, off: nat, v: u16)
    requires len <= buf.Length && off + 2 <= len
    modifies buf
    ensures buf[..len] == PutU16(old(buf[..len]), off, v)
    ensures buf[len..] == old(buf[len..])
  {
    buf[off] := v / 0x100;
    buf[off + 1] := v % 0x100;
  }

  method SetAddr(buf: array<byte>, len: nat, off: nat, a: Ipv4Addr)
    requires len <= buf.Length && off + 4 <= len
    modifies buf
    ensures buf[..len] == PutAddr(old(buf[..len]), off, a)
    ensures buf[len..] == old(buf[len..])
  {
    buf[off], buf[off + 1], buf[off + 2], buf[off + 3] := a.o0, a.o1, a.o2, a.o3;
  }

  method SetByte(buf: array<byte>, len: nat, off: nat, v: byte)
    requires len <= buf.Length && off < len
    modifies buf
    ensures buf[..len] == old(buf[..len])[off := v]
    ensures buf[len..] == old(buf[len..])
  {
    buf[off] := v;
  }

  method EditIpHeader(buf: array<byte>, len: nat, opts: NatOptions, destBroadcast: Ipv4Addr)
    requires 20 <= len <= buf.Length
    modifies buf
    ensures buf[..len] == RewriteIp(old(buf[..len]), opts, destBroadcast)
    ensures buf[len..] == old(buf[len..])
  {
    if opts.sourceIp.Some? {
      SetAddr(buf, len, 12, opts.sourceIp.value);
    }
    ghost var p1 := buf[..len];
    if opts.destIp.Some? {
      SetAddr(buf, len, 16, opts.destIp.value);
    } else {
      var dst := AddrAt(buf[..len], 16);
      if !dst.IsMulticast() {
        SetAddr(buf, len, 16, destBroadcast);
      }
    }
    assert buf[..len] == PutAddr(p1, 16, FinalDestination(AddrAt(p1, 16), opts, destBroadcast));
    SetByte(buf, len, 8, 1);
    SetU16(buf, len, 4, RELAY_MARKER_IP_ID);
  }

  method ApplyUdpNat(buf: array<byte>, len: nat, hl: nat, opts: NatOptions) returns (ok: bool)
    requires 20 <= hl <= len <= buf.Length
    modifies buf
    ensures ok == (hl + 8 <= len)
    ensures buf[..len] == if ok then StoreUdpChecksum(RewritePorts(old(buf[..len]), hl, opts), hl)
                                else old(buf[..len])
    ensures buf[len..] == old(buf[len..])
  {
    if len < hl + 8 {
      return false;
    }
    if opts.sourcePort.Some? {
      SetU16(buf, len, hl, opts.sourcePort.value);
    }
    if opts.destPort.Some? {
      SetU16(buf, len, hl + 2, opts.destPort.value);
    }
    SetU16(buf, len, hl + 6, UdpChecksum(buf[..len], hl));
    return true;
  }

  /** Rewrite buf[..len] in place; the rest of the buffer is not touched. */
  method ApplyNat(buf: array<byte>, len: nat, opts: NatOptions, destBroadcast: Ipv4Addr)
    returns (outcome: NatOutcome)
    requires len <= buf.Length
    modifies buf
    ensures (outcome, buf[..len]) == Rewrite(old(buf[..len]), opts, destBroadcast)
    ensures buf[len..] == old(buf[len..])
  {
    var header := ValidateIpv4Header(buf[..len]);
    if header.None? {
      return MalformedHeader;
    }
    var hl := header.value;
    EditIpHeader(buf, len, opts, destBroadcast);
    if buf[9] == PROTOCOL_UDP {
      var ok := ApplyUdpNat(buf, len, hl, opts);
      if !ok {
        return InvalidUdp;
      }
    }
    SetU16(buf, len, 10, HeaderChecksum(buf[..len], hl));
    return Rewritten;
  }
}
