/** What the rewriting of src/nat.rs guarantees about the packet it leaves. */
module NatProofs {
  import opened Net
  import opened Checksum
  import opened Config
  import opened Packet
  import opened Nat

  // ---------------------------------------------------------------- fields and frame

  /** Byte `i` belongs to a field that editing the IP header may change. */
  predicate InIpField(i: nat, opts: NatOptions) {
    4 <= i < 6 || i == 8 || (opts.sourceIp.Some? && 12 <= i < 16) || 16 <= i < 20
  }

  /** Byte `i` belongs to a field that editing a UDP header at `hl` may change. */
  predicate InUdpField(i: nat, hl: nat, opts: NatOptions) {
    || (opts.sourcePort.Some? && hl <= i < hl + 2)
    || (opts.destPort.Some? && hl + 2 <= i < hl + 4)
    || hl + 6 <= i < hl + 8
  }

  /** Byte `i` belongs to a field that rewriting may change. */
  predicate InRewrittenField(i: nat, hl: nat, opts: NatOptions, protocol: byte) {
    || InIpField(i, opts)
    || 10 <= i < 12
    || (protocol == PROTOCOL_UDP && InUdpField(i, hl, opts))
  }

  lemma IpFields(p: seq<byte>, opts: NatOptions, destBroadcast: Ipv4Addr)
    requires |p| >= 20
    ensures var q := RewriteIp(p, opts, destBroadcast);
            && q[0] == p[0] && q[9] == p[9] && q[8] == 1
            && U16At(q, 2) == U16At(p, 2)
            && U16At(q, 4) == RELAY_MARKER_IP_ID
            && AddrAt(q, 12) == (if opts.sourceIp.Some? then opts.sourceIp.value else AddrAt(p, 12))
            && AddrAt(q, 16) == FinalDestination(AddrAt(p, 16), opts, destBroadcast)
            && (forall i | 0 <= i < |p| && !InIpField(i, opts) :: q[i] == p[i])
  {
  }

  /** The fields of a rewritten packet: the loop marker, the chosen addresses and ports. */
  lemma FieldsAfterRewrite(p: seq<byte>, opts: NatOptions, destBroadcast: Ipv4Addr)
    requires Rewrite(p, opts, destBroadcast).0 == Rewritten
    ensures var q := Rewrite(p, opts, destBroadcast).1;
            && ValidateIpv4Header(q) == ValidateIpv4Header(p)
            && IsAlreadyRelayed(q)
            && U16At(q, 2) == U16At(p, 2) && U16At(q, 6) == U16At(p, 6)
            && q[9] == p[9]
            && AddrAt(q, 12) == (if opts.sourceIp.Some? then opts.sourceIp.value else AddrAt(p, 12))
            && AddrAt(q, 16) == FinalDestination(AddrAt(p, 16), opts, destBroadcast)
  {
    IpFields(p, opts, destBroadcast);
  }

  lemma PortFields(p: seq<byte>, hl: nat, opts: NatOptions)
    requires 20 <= hl && hl + 8 <= |p|
    ensures var q := RewritePorts(p, hl, opts);
            && U16At(q, hl) == (if opts.sourcePort.Some? then opts.sourcePort.value else U16At(p, hl))
            && U16At(q, hl + 2) == (if opts.destPort.Some? then opts.destPort.value else U16At(p, hl + 2))
            && U16At(q, hl + 4) == U16At(p, hl + 4)
            && q[..hl] == p[..hl]
  {
  }

  /** Storing the checksums touches neither the ports nor the UDP length. */
  lemma StoredChecksumsKeepPorts(b: seq<byte>, hl: nat)
    requires 20 <= hl && hl + 8 <= |b|
    ensures var q := StoreHeaderChecksum(StoreUdpChecksum(b, hl), hl);
            q[hl..hl + 6] == b[hl..hl + 6]
  {
  }

  lemma PortsOfSlice(q: seq<byte>, b: seq<byte>, hl: nat)
    requires hl + 8 <= |q| == |b| && q[hl..hl + 6] == b[hl..hl + 6]
    ensures U16At(q, hl) == U16At(b, hl)
    ensures U16At(q, hl + 2) == U16At(b, hl + 2)
    ensures U16At(q, hl + 4) == U16At(b, hl + 4)
  {
    forall i | hl <= i < hl + 6
      ensures q[i] == b[i]
    {
      assert q[i] == q[hl..hl + 6][i - hl] && b[i] == b[hl..hl + 6][i - hl];
    }
  }

  /** The IP header is edited as the options ask and what is behind it is kept. */
  predicate IsIpEdited(p: seq<byte>, ip: seq<byte>, hl: nat, opts: NatOptions, destBroadcast: Ipv4Addr)
    requires 20 <= hl <= |p|
  {
    && |ip| == |p|
    && ip[hl..] == p[hl..]
    && AddrAt(ip, 12) == (if opts.sourceIp.Some? then opts.sourceIp.value else AddrAt(p, 12))
    && AddrAt(ip, 16) == FinalDestination(AddrAt(p, 16), opts, destBroadcast)
  }

  lemma IpIsEdited(p: seq<byte>, hl: nat, opts: NatOptions, destBroadcast: Ipv4Addr)
    requires 20 <= hl <= |p|
    ensures IsIpEdited(p, RewriteIp(p, opts, destBroadcast), hl, opts, destBroadcast)
  {
    IpFields(p, opts, destBroadcast);
  }

  /** A UDP packet is rewritten in three steps: IP header, ports, checksums. */
  lemma UdpRewriteInSteps(p: seq<byte>, opts: NatOptions, destBroadcast: Ipv4Addr)
    returns (hl: nat, ip: seq<byte>, q: seq<byte>)
    requires HasUdpHeader(p)
    ensures ValidateIpv4Header(p) == Some(hl) && 20 <= hl && hl + 8 <= |p| == |ip| == |q|
    ensures Rewrite(p, opts, destBroadcast) == (Rewritten, q)
    ensures IsIpEdited(p, ip, hl, opts, destBroadcast)
    ensures q == StoreHeaderChecksum(StoreUdpChecksum(RewritePorts(ip, hl, opts), hl), hl)
  {
    hl := ValidateIpv4Header(p).value;
    IpFields(p, opts, destBroadcast);
    ip := RewriteIp(p, opts, destBroadcast);
    IpIsEdited(p, hl, opts, destBroadcast);
    q := Rewrite(p, opts, destBroadcast).1;
  }

  /** The ports of `q` are the chosen ones or those of `p`, and its UDP length is that of `p`. */
  predicate HasChosenPorts(p: seq<byte>, q: seq<byte>, hl: nat, opts: NatOptions)
    requires hl + 8 <= |p| == |q|
  {
    && U16At(q, hl) == (if opts.sourcePort.Some? then opts.sourcePort.value else U16At(p, hl))
    && U16At(q, hl + 2) == (if opts.destPort.Some? then opts.destPort.value else U16At(p, hl + 2))
    && U16At(q, hl + 4) == U16At(p, hl + 4)
  }

  lemma PortsBehindIp(p: seq<byte>, ip: seq<byte>, hl: nat, opts: NatOptions)
    requires 20 <= hl && hl + 8 <= |p| == |ip| && ip[hl..] == p[hl..]
    ensures var b := RewritePorts(ip, hl, opts);
            && HasChosenPorts(p, b, hl, opts)
            && AddrAt(b, 12) == AddrAt(ip, 12) && AddrAt(b, 16) == AddrAt(ip, 16)
            && forall i | hl + 4 <= i < |p| :: b[i] == p[i]
  {
    forall i | hl <= i < |p|
      ensures ip[i] == p[i]
    {
      assert ip[i] == ip[hl..][i - hl] && p[i] == p[hl..][i - hl];
    }
    PortFields(ip, hl, opts);
  }

  lemma PortsAfterSteps(p: seq<byte>, ip: seq<byte>, q: seq<byte>, hl: nat, opts: NatOptions)
    requires 20 <= hl && hl + 8 <= |p| == |ip| && ip[hl..] == p[hl..]
    requires q == StoreHeaderChecksum(StoreUdpChecksum(RewritePorts(ip, hl, opts), hl), hl)
    ensures HasChosenPorts(p, q, hl, opts)
  {
    var b := RewritePorts(ip, hl, opts);
    PortsBehindIp(p, ip, hl, opts);
    StoredChecksumsKeepPorts(b, hl);
    PortsOfSlice(q, b, hl);
  }

  lemma RewrittenIsUdp(p: seq<byte>, opts: NatOptions, destBroadcast: Ipv4Addr)
    requires Rewrite(p, opts, destBroadcast).0 == Rewritten && p[9] == PROTOCOL_UDP
    ensures HasUdpHeader(p)
  {
    IpFields(p, opts, destBroadcast);
  }

  lemma PortsAfterRewrite(p: seq<byte>, opts: NatOptions, destBroadcast: Ipv4Addr)
    requires Rewrite(p, opts, destBroadcast).0 == Rewritten && p[9] == PROTOCOL_UDP
    ensures var q, hl := Rewrite(p, opts, destBroadcast).1, ValidateIpv4Header(p).value;
            hl + 8 <= |p| && HasChosenPorts(p, q, hl, opts)
  {
    RewrittenIsUdp(p, opts, destBroadcast);
    var hl, ip, q := UdpRewriteInSteps(p, opts, destBroadcast);
    PortsAfterSteps(p, ip, q, hl, opts);
  }

  /** Rewriting changes only the named fields: version, lengths, IP options and payload survive, for
      every header length. A packet that is not UDP keeps everything behind its header; one that is
      too short for a UDP header keeps its checksums too, and a malformed one keeps everything. */
  lemma RewriteFrame(p: seq<byte>, opts: NatOptions, destBroadcast: Ipv4Addr)
    ensures var (outcome, q) := Rewrite(p, opts, destBroadcast);
            var header := ValidateIpv4Header(p);
            && |q| == |p|
            && match outcome
               case MalformedHeader => header.None? && q == p
               case InvalidUdp =>
                 && header.Some? && p[9] == PROTOCOL_UDP && |p| < header.value + 8
                 && forall i | 0 <= i < |p| && !InIpField(i, opts) :: q[i] == p[i]
               case Rewritten =>
                 && header.Some? && (p[9] == PROTOCOL_UDP ==> header.value + 8 <= |p|)
                 && forall i | 0 <= i < |p| && !InRewrittenField(i, header.value, opts, p[9]) :: q[i] == p[i]
  {
    if ValidateIpv4Header(p).Some? {
      IpFields(p, opts, destBroadcast);
    }
  }

  // ---------------------------------------------------------------- checksums

  /** A receiver's check of the IP header (section 3.1 of RFC 791). */
  predicate HeaderVerifies(p: seq<byte>)
    requires ValidateIpv4Header(p).Some?
  {
    Fold(WordSum(p[..ValidateIpv4Header(p).value])) == 0xFFFF
  }

  lemma ComplementPositive(sum: nat)
    ensures sum + Complement(sum) > 0
  {
  }

  lemma StoredHeaderChecksumVerifies(q: seq<byte>, hl: nat)
    requires 20 <= hl <= |q| && hl % 2 == 0
    ensures Fold(WordSum(StoreHeaderChecksum(q, hl)[..hl])) == 0xFFFF
  {
    var h := q[..hl];
    var sum := WordSum(PutU16(h, 10, 0));
    assert StoreHeaderChecksum(q, hl)[..hl] == PutU16(h, 10, Complement(sum));
    WordSumPut(h, 10, 0);
    WordSumPut(h, 10, Complement(sum));
    ComplementPositive(sum);
    ComplementVerifies(sum, sum + Complement(sum), 0);
  }

  /** Storing the header checksum is the last step. */
  lemma ChecksumIsLast(p: seq<byte>, opts: NatOptions, destBroadcast: Ipv4Addr) returns (b: seq<byte>)
    requires Rewrite(p, opts, destBroadcast).0 == Rewritten
    ensures var hl := ValidateIpv4Header(p).value;
            && 20 <= hl <= |b| && hl % 2 == 0
            && Rewrite(p, opts, destBroadcast).1 == StoreHeaderChecksum(b, hl)
  {
    var hl := ValidateIpv4Header(p).value;
    IpFields(p, opts, destBroadcast);
    b := RewriteTransport(RewriteIp(p, opts, destBroadcast), hl, opts);
  }

  /** Every rewritten packet carries an IP header whose checksum verifies. */
  lemma HeaderChecksumCorrect(p: seq<byte>, opts: NatOptions, destBroadcast: Ipv4Addr)
    requires Rewrite(p, opts, destBroadcast).0 == Rewritten
    ensures var q := Rewrite(p, opts, destBroadcast).1;
            ValidateIpv4Header(q).Some? && HeaderVerifies(q)
  {
    var hl := ValidateIpv4Header(p).value;
    FieldsAfterRewrite(p, opts, destBroadcast);
    var b := ChecksumIsLast(p, opts, destBroadcast);
    StoredHeaderChecksumVerifies(b, hl);
    HeaderVerifiesAt(StoreHeaderChecksum(b, hl), hl);
  }

  lemma HeaderVerifiesAt(q: seq<byte>, hl: nat)
    requires ValidateIpv4Header(q) == Some(hl) && Fold(WordSum(q[..hl])) == 0xFFFF
    ensures HeaderVerifies(q)
  {
  }

  /** The UDP length field of the packet. */
  function UdpLength(p: seq<byte>, hl: nat): nat
    requires hl + 8 <= |p|
  {
    U16At(p, hl + 4)
  }

  /** The sum of a datagram (RFC 768): pseudo-header with the declared UDP length, then as many bytes
      as that length declares. */
  predicate UdpVerifies(p: seq<byte>, hl: nat)
    requires 20 <= hl && hl + 8 <= |p| && hl + UdpLength(p, hl) <= |p|
  {
    var length := UdpLength(p, hl);
    Fold(PseudoSum(AddrAt(p, 12), AddrAt(p, 16), length) + WordSum(p[hl..hl + length])) == 0xFFFF
  }

  /** The packet is not a fragment: no more follow and its offset is zero (section 3.1 of RFC 791). */
  predicate IsUnfragmented(p: seq<byte>)
    requires |p| >= 20
  {
    U16At(p, 6) % 0x4000 == 0
  }

  /** The packet holds a whole datagram: it is no fragment, and the declared datagram is at least a
      header and lies inside the declared packet, and that inside the bytes received. */
  predicate IsWholeDatagram(p: seq<byte>, hl: nat)
    requires hl >= 20 && hl + 8 <= |p|
  {
    && IsUnfragmented(p)
    && 8 <= UdpLength(p, hl)
    && hl + UdpLength(p, hl) <= U16At(p, 2) <= |p|
  }

  /** A receiver's check: the packet holds a whole datagram and its checksum verifies. That a stored zero tells it not
      to look at the sum is treated apart. */
  predicate ReceiverVerifies(p: seq<byte>, hl: nat)
    requires 20 <= hl && hl + 8 <= |p|
  {
    IsWholeDatagram(p, hl) && UdpVerifies(p, hl)
  }

  /** What bytes behind a datagram add to the sum over the whole buffer; `odd` says whether they start
      in the middle of a word. */
  function PaddingSum(pad: seq<byte>, odd: bool): nat {
    if odd && |pad| > 0 then pad[0] + WordSum(pad[1..]) else WordSum(pad)
  }

  lemma {:induction false} WordSumWithPadding(a: seq<byte>, pad: seq<byte>)
    ensures WordSum(a + pad) == WordSum(a) + PaddingSum(pad, |a| % 2 == 1)
  {
    if |a| >= 2 {
      assert (a + pad)[2..] == a[2..] + pad;
      WordSumWithPadding(a[2..], pad);
    } else if |a| == 1 && |pad| > 0 {
      assert (a + pad)[2..] == pad[1..];
    } else {
      assert a + pad == if |a| == 0 then pad else a;
    }
  }

  /** The bytes of the packet behind the declared end of its datagram. */
  function Padding(p: seq<byte>, hl: nat): seq<byte>
    requires hl + 8 <= |p| && hl + UdpLength(p, hl) <= |p|
  {
    p[hl + UdpLength(p, hl)..]
  }

  /** The padding does not disturb the sum that the relay forms over the whole buffer. */
  predicate PaddingIsNeutral(p: seq<byte>, hl: nat)
    requires hl + 8 <= |p| && hl + UdpLength(p, hl) <= |p|
  {
    var pad := Padding(p, hl);
    (|pad| + PaddingSum(pad, UdpLength(p, hl) % 2 == 1)) % 0xFFFF == 0
  }

  lemma PseudoSumShift(src: Ipv4Addr, dst: Ipv4Addr, a: nat, b: nat)
    ensures PseudoSum(src, dst, a) - a == PseudoSum(src, dst, b) - b
    ensures PseudoSum(src, dst, a) > a
  {
    var head := src.Octets() + dst.Octets();
    WordSumConcat(head, [0, PROTOCOL_UDP]);
    assert [0, PROTOCOL_UDP][2..] == [];
  }

  /** Over the whole buffer, pseudo-header included, the stored checksum completes the sum. */
  lemma StoredUdpChecksumCompletes(b: seq<byte>, hl: nat) returns (sum: nat)
    requires 20 <= hl && hl + 8 <= |b|
    ensures var q := StoreUdpChecksum(b, hl);
            PseudoSum(AddrAt(b, 12), AddrAt(b, 16), |b| - hl) + WordSum(q[hl..]) == sum + Complement(sum)
  {
    var tail := b[hl..];
    sum := PseudoSum(AddrAt(b, 12), AddrAt(b, 16), |b| - hl) + WordSum(PutU16(tail, 6, 0));
    assert StoreUdpChecksum(b, hl)[hl..] == PutU16(tail, 6, Complement(sum));
    WordSumPut(tail, 6, 0);
    WordSumPut(tail, 6, Complement(sum));
  }

  /** A buffer completed over its whole tail verifies as a datagram of its declared length exactly
      when its padding is neutral. */
  lemma CompletedTailVerifies(q: seq<byte>, hl: nat, sum: nat)
    requires 20 <= hl && hl + 8 <= |q| && hl + UdpLength(q, hl) <= |q|
    requires PseudoSum(AddrAt(q, 12), AddrAt(q, 16), |q| - hl) + WordSum(q[hl..]) == sum + Complement(sum)
    ensures UdpVerifies(q, hl) <==> PaddingIsNeutral(q, hl)
  {
    var src, dst, length := AddrAt(q, 12), AddrAt(q, 16), UdpLength(q, hl);
    var segment, pad := q[hl..hl + length], Padding(q, hl);
    assert q[hl..] == segment + pad;
    WordSumWithPadding(segment, pad);
    PseudoSumShift(src, dst, length, |q| - hl);
    ComplementVerifies(sum, PseudoSum(src, dst, length) + WordSum(segment), |pad| + PaddingSum(pad, length % 2 == 1));
  }

  lemma StoredUdpChecksumVerifies(b: seq<byte>, hl: nat)
    requires 20 <= hl && hl + 8 <= |b| && 8 <= UdpLength(b, hl) <= |b| - hl
    ensures var q := StoreUdpChecksum(b, hl);
            && UdpLength(q, hl) == UdpLength(b, hl)
            && (UdpVerifies(q, hl) <==> PaddingIsNeutral(b, hl))
  {
    var q := StoreUdpChecksum(b, hl);
    var sum := StoredUdpChecksumCompletes(b, hl);
    assert AddrAt(q, 12) == AddrAt(b, 12) && AddrAt(q, 16) == AddrAt(b, 16);
    assert UdpLength(q, hl) == UdpLength(b, hl);
    CompletedTailVerifies(q, hl, sum);
    assert Padding(q, hl) == Padding(b, hl);
  }

  /** A UDP packet whose declared datagram lies inside the buffer. */
  predicate HasDatagram(p: seq<byte>) {
    && HasUdpHeader(p)
    && var hl := ValidateIpv4Header(p).value;
       8 <= UdpLength(p, hl) <= |p| - hl
  }

  /** A datagram inside the buffer verifies after rewriting exactly when the padding received behind
      it is neutral for the sum. */
  lemma DatagramVerifies(p: seq<byte>, opts: NatOptions, destBroadcast: Ipv4Addr)
    requires HasDatagram(p)
    ensures var hl := ValidateIpv4Header(p).value;
            var (outcome, q) := Rewrite(p, opts, destBroadcast);
            && outcome == Rewritten
            && ValidateIpv4Header(q) == Some(hl)
            && UdpLength(q, hl) == UdpLength(p, hl)
            && (UdpVerifies(q, hl) <==> PaddingIsNeutral(p, hl))
  {
    IpFields(p, opts, destBroadcast);
    FieldsAfterRewrite(p, opts, destBroadcast);
    UdpChecksumOfRewritten(p, opts, destBroadcast);
    PortsAfterRewrite(p, opts, destBroadcast);
  }

  /** The packet holds a whole datagram and the bytes behind it do not disturb the sum. */
  predicate IsIntact(p: seq<byte>, hl: nat)
    requires 20 <= hl && hl + 8 <= |p|
  {
    IsWholeDatagram(p, hl) && PaddingIsNeutral(p, hl)
  }

  lemma WholeAfterRewrite(p: seq<byte>, opts: NatOptions, destBroadcast: Ipv4Addr)
    requires HasUdpHeader(p)
    ensures var hl := ValidateIpv4Header(p).value;
            var (outcome, q) := Rewrite(p, opts, destBroadcast);
            && outcome == Rewritten
            && ValidateIpv4Header(q) == Some(hl)
            && IsWholeDatagram(q, hl) == IsWholeDatagram(p, hl)
  {
    IpFields(p, opts, destBroadcast);
    assert Rewrite(p, opts, destBroadcast).0 == Rewritten;
    FieldsAfterRewrite(p, opts, destBroadcast);
    PortsAfterRewrite(p, opts, destBroadcast);
  }

  /** A relayed UDP packet, whatever its lengths and fragment fields, verifies at its receiver exactly
      when it is no fragment, its declared datagram fits the declared packet and that the bytes
      received, and the bytes behind the datagram are neutral for the sum. In particular an unpadded
      and unfragmented datagram always does. */
  lemma UdpChecksumCorrect(p: seq<byte>, opts: NatOptions, destBroadcast: Ipv4Addr)
    requires HasUdpHeader(p)
    ensures var hl := ValidateIpv4Header(p).value;
            var (outcome, q) := Rewrite(p, opts, destBroadcast);
            && outcome == Rewritten
            && ValidateIpv4Header(q) == Some(hl)
            && (ReceiverVerifies(q, hl) <==> IsIntact(p, hl))
            && (IsUnfragmented(p) && hl + UdpLength(p, hl) == U16At(p, 2) == |p| ==> ReceiverVerifies(q, hl))
  {
    WholeAfterRewrite(p, opts, destBroadcast);
    if IsWholeDatagram(p, ValidateIpv4Header(p).value) {
      DatagramVerifies(p, opts, destBroadcast);
      NoPaddingIsNeutral(p);
    }
  }

  lemma NoPaddingIsNeutral(p: seq<byte>)
    requires HasDatagram(p)
    ensures var hl := ValidateIpv4Header(p).value;
            UdpLength(p, hl) == |p| - hl ==> PaddingIsNeutral(p, hl)
  {
  }

  lemma BothChecksumsStored(b: seq<byte>, hl: nat)
    requires 20 <= hl && hl + 8 <= |b| && 8 <= UdpLength(b, hl) <= |b| - hl
    ensures var q := StoreHeaderChecksum(StoreUdpChecksum(b, hl), hl);
            && UdpLength(q, hl) == UdpLength(b, hl)
            && (UdpVerifies(q, hl) <==> PaddingIsNeutral(b, hl))
  {
    var u := StoreUdpChecksum(b, hl);
    StoredUdpChecksumVerifies(b, hl);
    SameDatagram(u, StoreHeaderChecksum(u, hl), hl);
  }

  lemma UdpChecksumOfRewritten(p: seq<byte>, opts: NatOptions, destBroadcast: Ipv4Addr)
    requires HasDatagram(p)
    ensures var hl := ValidateIpv4Header(p).value;
            var (outcome, q) := Rewrite(p, opts, destBroadcast);
            && outcome == Rewritten
            && UdpLength(q, hl) == UdpLength(p, hl) && (UdpVerifies(q, hl) <==> PaddingIsNeutral(p, hl))
  {
    var hl, ip, q := UdpRewriteInSteps(p, opts, destBroadcast);
    var b := RewritePorts(ip, hl, opts);
    PortsBehindIp(p, ip, hl, opts);
    SamePadding(p, b, hl);
    BothChecksumsStored(b, hl);
  }

  lemma SamePadding(p: seq<byte>, b: seq<byte>, hl: nat)
    requires hl + 8 <= |p| == |b| && hl + UdpLength(p, hl) <= |p| && 8 <= UdpLength(p, hl)
    requires forall i | hl + 4 <= i < |p| :: b[i] == p[i]
    ensures UdpLength(b, hl) == UdpLength(p, hl)
    ensures PaddingIsNeutral(b, hl) == PaddingIsNeutral(p, hl)
  {
    assert Padding(b, hl) == Padding(p, hl);
  }

  /** Two packets that differ in the IP header checksum only carry the same datagram. */
  lemma SameDatagram(u: seq<byte>, q: seq<byte>, hl: nat)
    requires 20 <= hl && hl + 8 <= |u| == |q| && hl + UdpLength(u, hl) <= |u|
    requires forall i | 0 <= i < |u| && !(10 <= i < 12) :: q[i] == u[i]
    ensures UdpLength(q, hl) == UdpLength(u, hl)
    ensures UdpVerifies(q, hl) == UdpVerifies(u, hl)
  {
    assert q[hl..hl + UdpLength(u, hl)] == u[hl..hl + UdpLength(u, hl)];
  }

  lemma {:induction false} ZerosSumToZero(s: seq<byte>)
    requires forall i | 0 <= i < |s| :: s[i] == 0
    ensures WordSum(s) == 0
  {
    if |s| < 2 {
    } else {
      ZerosSumToZero(s[2..]);
    }
  }

  /** What the UDP checksum covers: pseudo-header and everything behind the IP header, its own field
      taken as zero. */
  function CoveredSum(b: seq<byte>, hl: nat): nat
    requires 20 <= hl && hl + 8 <= |b|
  {
    PseudoSum(AddrAt(b, 12), AddrAt(b, 16), |b| - hl) + WordSum(PutU16(b[hl..], 6, 0))
  }

  lemma StoredUdpChecksumZeroIff(b: seq<byte>, hl: nat)
    requires 20 <= hl && hl + 8 <= |b|
    ensures U16At(StoreUdpChecksum(b, hl), hl + 6) == 0 <==> CoveredSum(b, hl) % 0xFFFF == 0
  {
    PseudoSumShift(AddrAt(b, 12), AddrAt(b, 16), |b| - hl, 0);
    FoldsToOnes(CoveredSum(b, hl));
  }

  /** What the checksum of the relayed packet covers, in terms of the packet received: the chosen or
      received addresses and ports, the length of everything behind the IP header, the UDP length and
      the data. */
  function RelayedSum(p: seq<byte>, opts: NatOptions, destBroadcast: Ipv4Addr): nat
    requires HasUdpHeader(p)
  {
    var hl := ValidateIpv4Header(p).value;
    var src := if opts.sourceIp.Some? then opts.sourceIp.value else AddrAt(p, 12);
    SumWith(p, hl, opts, src, FinalDestination(AddrAt(p, 16), opts, destBroadcast))
  }

  /** The same with the addresses given. */
  function SumWith(p: seq<byte>, hl: nat, opts: NatOptions, src: Ipv4Addr, dst: Ipv4Addr): nat
    requires 20 <= hl && hl + 8 <= |p|
  {
    var srcPort := if opts.sourcePort.Some? then opts.sourcePort.value else U16At(p, hl);
    var dstPort := if opts.destPort.Some? then opts.destPort.value else U16At(p, hl + 2);
    PseudoSum(src, dst, |p| - hl) + srcPort + dstPort + UdpLength(p, hl) + WordSum(p[hl + 8..])
  }

  lemma WordSumOfEight(t: seq<byte>)
    requires |t| >= 8
    ensures WordSum(t) == U16At(t, 0) + U16At(t, 2) + U16At(t, 4) + U16At(t, 6) + WordSum(t[8..])
  {
    var t2, t4, t6 := t[2..], t[4..], t[6..];
    assert t2[2..] == t4 && t4[2..] == t6 && t6[2..] == t[8..];
    assert WordSum(t6) == U16At(t, 6) + WordSum(t[8..]);
    assert WordSum(t4) == U16At(t, 4) + WordSum(t6);
    assert WordSum(t2) == U16At(t, 2) + WordSum(t4);
  }

  lemma CoveredSumInWords(b: seq<byte>, hl: nat)
    requires 20 <= hl && hl + 8 <= |b|
    ensures CoveredSum(b, hl)
            == PseudoSum(AddrAt(b, 12), AddrAt(b, 16), |b| - hl)
               + U16At(b, hl) + U16At(b, hl + 2) + UdpLength(b, hl) + WordSum(b[hl + 8..])
  {
    var t := PutU16(b[hl..], 6, 0);
    assert t[8..] == b[hl + 8..];
    WordSumOfEight(t);
  }

  lemma CoveredIsSumWith(p: seq<byte>, b: seq<byte>, hl: nat, opts: NatOptions)
    requires 20 <= hl && hl + 8 <= |p| == |b| && HasChosenPorts(p, b, hl, opts)
    requires forall i | hl + 4 <= i < |p| :: b[i] == p[i]
    ensures CoveredSum(b, hl) == SumWith(p, hl, opts, AddrAt(b, 12), AddrAt(b, 16))
  {
    CoveredSumInWords(b, hl);
    assert b[hl + 8..] == p[hl + 8..];
  }

  lemma FieldZeroIff(p: seq<byte>, ip: seq<byte>, q: seq<byte>, hl: nat, opts: NatOptions)
    requires 20 <= hl && hl + 8 <= |p| == |ip| && ip[hl..] == p[hl..]
    requires q == StoreHeaderChecksum(StoreUdpChecksum(RewritePorts(ip, hl, opts), hl), hl)
    ensures U16At(q, hl + 6) == 0
            <==> SumWith(p, hl, opts, AddrAt(ip, 12), AddrAt(ip, 16)) % 0xFFFF == 0
  {
    var b := RewritePorts(ip, hl, opts);
    PortsBehindIp(p, ip, hl, opts);
    CoveredIsSumWith(p, b, hl, opts);
    StoredUdpChecksumZeroIff(b, hl);
    HeaderChecksumKeepsUdp(StoreUdpChecksum(b, hl), hl);
  }

  /** The checksum field is stored as computed: a relayed packet carries zero, which RFC 768 reserves
      for "no checksum", exactly when the addresses and ports it leaves with, its lengths and its data
      sum to a multiple of 65535. */
  lemma UdpChecksumZeroIff(p: seq<byte>, opts: NatOptions, destBroadcast: Ipv4Addr)
    requires HasUdpHeader(p)
    ensures var hl := ValidateIpv4Header(p).value;
            var (outcome, q) := Rewrite(p, opts, destBroadcast);
            && outcome == Rewritten
            && (U16At(q, hl + 6) == 0 <==> RelayedSum(p, opts, destBroadcast) % 0xFFFF == 0)
  {
    var hl, ip, q := UdpRewriteInSteps(p, opts, destBroadcast);
    FieldZeroIff(p, ip, q, hl, opts);
  }

  lemma HeaderChecksumKeepsUdp(u: seq<byte>, hl: nat)
    requires 20 <= hl && hl + 8 <= |u|
    ensures U16At(StoreHeaderChecksum(u, hl), hl + 6) == U16At(u, hl + 6)
  {
  }

  /** Zero padding, as a link layer adds to short frames, always spoils the UDP checksum: the relay
      puts the length of the whole buffer into the pseudo-header instead of the datagram's. */
  lemma ZeroPaddingSpoilsUdpChecksum(p: seq<byte>, opts: NatOptions, destBroadcast: Ipv4Addr)
    requires HasDatagram(p)
    requires var pad := Padding(p, ValidateIpv4Header(p).value);
             0 < |pad| < 0xFFFF && forall i | 0 <= i < |pad| :: pad[i] == 0
    ensures var hl := ValidateIpv4Header(p).value;
            var (outcome, q) := Rewrite(p, opts, destBroadcast);
            outcome == Rewritten && UdpLength(q, hl) == UdpLength(p, hl) && !UdpVerifies(q, hl)
  {
    var hl := ValidateIpv4Header(p).value;
    ZeroPaddingIsNotNeutral(Padding(p, hl), UdpLength(p, hl) % 2 == 1);
    assert !PaddingIsNeutral(p, hl);
    DatagramVerifies(p, opts, destBroadcast);
  }

  lemma ZeroPaddingIsNotNeutral(pad: seq<byte>, odd: bool)
    requires 0 < |pad| < 0xFFFF && forall i | 0 <= i < |pad| :: pad[i] == 0
    ensures (|pad| + PaddingSum(pad, odd)) % 0xFFFF != 0
  {
    ZerosSumToZero(pad);
    ZerosSumToZero(pad[1..]);
  }

  /** The sums of both checksums fit a 32-bit accumulator for buffers of up to 65536 bytes. */
  lemma AccumulatorFits(p: seq<byte>, hl: nat)
    requires 20 <= hl && hl + 8 <= |p| <= 65536
    ensures PseudoSum(AddrAt(p, 12), AddrAt(p, 16), |p| - hl) + WordSum(p[hl..]) < 0x1_0000_0000
    ensures WordSum(p[..hl]) < 0x1_0000_0000
  {
    WordSumBound(AddrAt(p, 12).Octets() + AddrAt(p, 16).Octets() + [0, PROTOCOL_UDP]);
    WordSumBound(p[hl..]);
    WordSumBound(p[..hl]);
  }

  // ---------------------------------------------------------------- idempotence

  lemma PutSameU16(q: seq<byte>, off: nat)
    requires off + 2 <= |q|
    ensures PutU16(q, off, U16At(q, off)) == q
  {
  }

  lemma PutSameAddr(q: seq<byte>, off: nat)
    requires off + 4 <= |q|
    ensures PutAddr(q, off, AddrAt(q, off)) == q
  {
  }

  lemma FinalDestinationIdempotent(dst: Ipv4Addr, opts: NatOptions, destBroadcast: Ipv4Addr)
    ensures var d := FinalDestination(dst, opts, destBroadcast);
            FinalDestination(d, opts, destBroadcast) == d
  {
  }

  /** A packet whose IP fields are already as rewriting would leave them is not changed by it. */
  lemma RewriteIpFixpoint(q: seq<byte>, opts: NatOptions, destBroadcast: Ipv4Addr)
    requires |q| >= 20 && q[8] == 1 && U16At(q, 4) == RELAY_MARKER_IP_ID
    requires opts.sourceIp.Some? ==> AddrAt(q, 12) == opts.sourceIp.value
    requires FinalDestination(AddrAt(q, 16), opts, destBroadcast) == AddrAt(q, 16)
    ensures RewriteIp(q, opts, destBroadcast) == q
  {
    PutSameAddr(q, 12);
    PutSameAddr(q, 16);
    assert q[8 := 1] == q;
    PutSameU16(q, 4);
  }

  lemma RewritePortsFixpoint(q: seq<byte>, hl: nat, opts: NatOptions)
    requires hl + 8 <= |q|
    requires opts.sourcePort.Some? ==> U16At(q, hl) == opts.sourcePort.value
    requires opts.destPort.Some? ==> U16At(q, hl + 2) == opts.destPort.value
    ensures RewritePorts(q, hl, opts) == q
  {
    PutSameU16(q, hl);
    PutSameU16(q, hl + 2);
  }

  /** Checksums do not depend on the checksums already stored. */
  lemma StoredChecksumsFixpoint(b: seq<byte>, hl: nat)
    requires 20 <= hl && hl + 8 <= |b|
    ensures var q := StoreHeaderChecksum(StoreUdpChecksum(b, hl), hl);
            StoreUdpChecksum(q, hl) == q && StoreHeaderChecksum(q, hl) == q
  {
    var u := StoreUdpChecksum(b, hl);
    var q := StoreHeaderChecksum(u, hl);
    assert PutU16(q[hl..], 6, 0) == PutU16(b[hl..], 6, 0);
    assert AddrAt(q, 12) == AddrAt(b, 12) && AddrAt(q, 16) == AddrAt(b, 16);
    PutSameU16(q, hl + 6);
    StoredHeaderChecksumFixpoint(u, hl);
  }

  lemma StoredHeaderChecksumFixpoint(u: seq<byte>, hl: nat)
    requires 20 <= hl <= |u|
    ensures var q := StoreHeaderChecksum(u, hl); StoreHeaderChecksum(q, hl) == q
  {
    var q := StoreHeaderChecksum(u, hl);
    assert PutU16(q[..hl], 10, 0) == PutU16(u[..hl], 10, 0);
    PutSameU16(q, 10);
  }

  lemma RewriteFixpoint(q: seq<byte>, hl: nat, opts: NatOptions, destBroadcast: Ipv4Addr)
    requires ValidateIpv4Header(q) == Some(hl)
    requires RewriteIp(q, opts, destBroadcast) == q
    requires q[9] == PROTOCOL_UDP ==>
               hl + 8 <= |q| && RewritePorts(q, hl, opts) == q && StoreUdpChecksum(q, hl) == q
    requires StoreHeaderChecksum(q, hl) == q
    ensures Rewrite(q, opts, destBroadcast) == (Rewritten, q)
  {
  }

  lemma ChecksumsAreFixpoint(p: seq<byte>, opts: NatOptions, destBroadcast: Ipv4Addr)
    requires Rewrite(p, opts, destBroadcast).0 == Rewritten
    ensures var hl, q := ValidateIpv4Header(p).value, Rewrite(p, opts, destBroadcast).1;
            && (p[9] == PROTOCOL_UDP ==> hl + 8 <= |p| && StoreUdpChecksum(q, hl) == q)
            && StoreHeaderChecksum(q, hl) == q
  {
    if p[9] == PROTOCOL_UDP {
      RewrittenIsUdp(p, opts, destBroadcast);
      var hl, ip, q := UdpRewriteInSteps(p, opts, destBroadcast);
      StoredChecksumsFixpoint(RewritePorts(ip, hl, opts), hl);
    } else {
      var b := ChecksumIsLast(p, opts, destBroadcast);
      StoredHeaderChecksumFixpoint(b, ValidateIpv4Header(p).value);
    }
  }

  lemma IpFieldsAreFixpoint(p: seq<byte>, opts: NatOptions, destBroadcast: Ipv4Addr)
    requires Rewrite(p, opts, destBroadcast).0 == Rewritten
    ensures var q := Rewrite(p, opts, destBroadcast).1;
            |q| >= 20 && RewriteIp(q, opts, destBroadcast) == q
  {
    FieldsAfterRewrite(p, opts, destBroadcast);
    FinalDestinationIdempotent(AddrAt(p, 16), opts, destBroadcast);
    RewriteIpFixpoint(Rewrite(p, opts, destBroadcast).1, opts, destBroadcast);
  }

  lemma PortsAreFixpoint(p: seq<byte>, opts: NatOptions, destBroadcast: Ipv4Addr)
    requires Rewrite(p, opts, destBroadcast).0 == Rewritten && p[9] == PROTOCOL_UDP
    ensures var hl, q := ValidateIpv4Header(p).value, Rewrite(p, opts, destBroadcast).1;
            hl + 8 <= |p| && RewritePorts(q, hl, opts) == q
  {
    PortsAfterRewrite(p, opts, destBroadcast);
    RewritePortsFixpoint(Rewrite(p, opts, destBroadcast).1, ValidateIpv4Header(p).value, opts);
  }

  /** Rewriting a rewritten packet again with the same options changes nothing. */
  lemma RewriteIdempotent(p: seq<byte>, opts: NatOptions, destBroadcast: Ipv4Addr)
    requires Rewrite(p, opts, destBroadcast).0 == Rewritten
    ensures var q := Rewrite(p, opts, destBroadcast).1;
            Rewrite(q, opts, destBroadcast) == (Rewritten, q)
  {
    var hl, q := ValidateIpv4Header(p).value, Rewrite(p, opts, destBroadcast).1;
    FieldsAfterRewrite(p, opts, destBroadcast);
    ChecksumsAreFixpoint(p, opts, destBroadcast);
    IpFieldsAreFixpoint(p, opts, destBroadcast);
    if p[9] == PROTOCOL_UDP {
      PortsAreFixpoint(p, opts, destBroadcast);
    }
    RewriteFixpoint(q, hl, opts, destBroadcast);
  }
}
