/** Parsing of received IPv4/UDP packets (src/packet.rs). Field offsets are those of section 3.1 of
    RFC 791 and of RFC 768. */
module Packet {
  import opened Net
  import opened Config

  const PROTOCOL_UDP: byte := 17
  const RELAY_MARKER_IP_ID: u16 := 0xBCBC

  /** The header length in bytes, if the buffer starts with a well-formed IPv4 header. */
  function ValidateIpv4Header(buf: seq<byte>): (r: Option<nat>)
    ensures r.Some? ==> 20 <= r.value <= 60 && r.value <= |buf| && r.value % 4 == 0
  {
    if |buf| < 20 then None
    else
      var version, ihl := HighNibble(buf[0]), LowNibble(buf[0]);
      if version != 4 || ihl < 5 then None
      else if ihl * 4 > |buf| then None
      else Some(ihl * 4)
  }

  predicate IsBroadcast(ip: Ipv4Addr) {
    ip == LIMITED_BROADCAST || ip.o3 == 255 || ip.IsMulticast()
  }

  /** The bytes after the header, up to the length that the header declares. */
  function IpPayload(buf: seq<byte>, headerLen: nat): seq<byte>
    requires 20 <= headerLen <= |buf|
  {
    var total := U16At(buf, 2);
    buf[headerLen..if total < headerLen then headerLen else if total < |buf| then total else |buf|]
  }

  function ExtractPacketInfo(buf: seq<byte>): Option<PacketInfo> {
    match ValidateIpv4Header(buf)
    case None => None
    case Some(headerLen) =>
      var totalLength := U16At(buf, 2);
      if totalLength < 20 || totalLength > |buf| then None
      else
        var dstIp := AddrAt(buf, 16);
        if !IsBroadcast(dstIp) then None
        else
          var srcIp := AddrAt(buf, 12);
          if srcIp == UNSPECIFIED || IsBroadcast(srcIp) then None
          else
            var payload := IpPayload(buf, headerLen);
            if buf[9] != PROTOCOL_UDP || |payload| < 8 then None
            else Some(PacketInfo(Udp, srcIp, dstIp, U16At(payload, 0), U16At(payload, 2)))
  }

  /** A valid header of a UDP packet with a UDP header behind it. */
  predicate HasUdpHeader(buf: seq<byte>) {
    ValidateIpv4Header(buf).Some? && buf[9] == PROTOCOL_UDP && ValidateIpv4Header(buf).value + 8 <= |buf|
  }

  predicate IsAlreadyRelayed(buf: seq<byte>) {
    && ValidateIpv4Header(buf).Some?
    && buf[8] == 1
    && U16At(buf, 4) == RELAY_MARKER_IP_ID
  }

  /** A header is well formed exactly when its first byte spells version 4 and a length of 5 to 15
      words that lie inside the buffer. */
  lemma HeaderIff(buf: seq<byte>, hl: nat)
    ensures ValidateIpv4Header(buf) == Some(hl)
            <==> 20 <= hl <= 60 && hl % 4 == 0 && hl <= |buf| && buf[0] == 0x40 + hl / 4
  {
  }

  /** The loop marker on bytes: in a well-formed header, time to live 1 and identification 0xBCBC. */
  lemma MarkerIff(buf: seq<byte>)
    ensures IsAlreadyRelayed(buf)
            <==> && |buf| >= 20 && 0x45 <= buf[0] <= 0x4F && 4 * (buf[0] as int - 0x40) <= |buf|
                 && buf[8] == 1 && buf[4] == 0xBC && buf[5] == 0xBC
  {
  }

  /** A source address that the parser accepts: not 0.0.0.0, not ending in 255, and not multicast. It
      looks at no subnet. */
  predicate IsAcceptedSource(a: Ipv4Addr) {
    a.U32() != 0 && a.o3 != 255 && !(224 <= a.o0 <= 239)
  }

  lemma UnspecifiedIsZero(a: Ipv4Addr)
    ensures a == UNSPECIFIED <==> a.U32() == 0
  {
    if a.U32() == 0 {
      U32Injective(a, UNSPECIFIED);
    }
  }

  /** The header, an entire UDP header and the declared length lie inside the buffer. */
  predicate IsCompleteUdp(buf: seq<byte>): (r: bool)
    ensures r ==> |buf| >= 20 && ValidateIpv4Header(buf) == Some(4 * (buf[0] as int - 0x40))
  {
    && |buf| >= 20
    && 0x45 <= buf[0] <= 0x4F
    && buf[9] == 17
    && 4 * (buf[0] as int - 0x40) + 8 <= 0x100 * buf[2] + buf[3] <= |buf|
  }

  lemma CompleteUdpIff(buf: seq<byte>)
    ensures IsCompleteUdp(buf)
            <==> && ValidateIpv4Header(buf).Some?
                 && buf[9] == PROTOCOL_UDP
                 && ValidateIpv4Header(buf).value + 8 <= U16At(buf, 2) <= |buf|
  {
  }

  /** A packet is accepted exactly when it is a complete UDP packet from an accepted source to a
      multicast address or one that ends in 255, and then its fields are reported. */
  lemma ExtractIff(buf: seq<byte>)
    ensures ExtractPacketInfo(buf).Some?
            <==> && IsCompleteUdp(buf)
                 && (AddrAt(buf, 16).IsMulticast() || AddrAt(buf, 16).o3 == 255)
                 && IsAcceptedSource(AddrAt(buf, 12))
    ensures ExtractPacketInfo(buf).Some? ==>
              var hl := ValidateIpv4Header(buf).value;
              ExtractPacketInfo(buf).value
              == PacketInfo(Udp, AddrAt(buf, 12), AddrAt(buf, 16), U16At(buf, hl), U16At(buf, hl + 2))
  {
    CompleteUdpIff(buf);
    if |buf| >= 20 {
      UnspecifiedIsZero(AddrAt(buf, 12));
    }
  }

  /** A packet to a directed broadcast address, complete and from an accepted source, is accepted exactly
      when the address ends in 255: the broadcast address of a subnet whose prefix ends inside the
      last octet, 192.168.1.127 for instance, is not recognised. */
  lemma DirectedNeeds255(buf: seq<byte>)
    requires IsCompleteUdp(buf) && IsAcceptedSource(AddrAt(buf, 12)) && !AddrAt(buf, 16).IsMulticast()
    ensures ExtractPacketInfo(buf).Some? <==> AddrAt(buf, 16).o3 == 255
    ensures AddrAt(buf, 16) == Ipv4Addr(192, 168, 1, 127) ==> ExtractPacketInfo(buf).None?
  {
    ExtractIff(buf);
  }

  /** The loop check reads nothing beyond the first 20 bytes, provided the header still fits. */
  lemma MarkerDependsOnHeaderOnly(buf: seq<byte>, other: seq<byte>)
    requires ValidateIpv4Header(buf).Some? && ValidateIpv4Header(buf).value <= |other|
    requires buf[..20] == other[..20]
    ensures IsAlreadyRelayed(other) == IsAlreadyRelayed(buf)
  {
    assert forall i | 0 <= i < 20 :: other[i] == other[..20][i] == buf[..20][i] == buf[i];
  }
}
