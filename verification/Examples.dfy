/** Single packets and lines for which the relay does not do what its documentation says. */
module Examples {
  import opened Bits
  import opened Net
  import opened Checksum
  import opened Text
  import opened Config
  import opened ConfigParser
  import opened ConfigPrinter
  import opened Filter
  import opened Packet
  import opened Nat
  import opened NatProofs
  import opened Relay
  import opened RelayProofs
  import opened Subnets
  import opened Network

  // ---------------------------------------------------------------- frames

  /** A packet from port 1234 to port 5353 with a 20-byte header, whatever its lengths say. */
  function Datagram(src: Ipv4Addr, dst: Ipv4Addr, total: byte, length: byte, payload: seq<byte>): seq<byte> {
    [0x45, 0, 0, total, 0, 1, 0, 0, 64, 17, 0, 0] + src.Octets() + dst.Octets()
    + [4, 210, 20, 233, 0, length, 0, 0] + payload
  }

  lemma DatagramFields(src: Ipv4Addr, dst: Ipv4Addr, total: byte, length: byte, payload: seq<byte>)
    requires 28 <= total <= 28 + |payload|
    ensures var p := Datagram(src, dst, total, length, payload);
            && |p| == 28 + |payload|
            && HasUdpHeader(p) && ValidateIpv4Header(p) == Some(20) && IsCompleteUdp(p)
            && !IsAlreadyRelayed(p)
            && U16At(p, 2) == total && U16At(p, 6) == 0
            && U16At(p, 20) == 1234 && U16At(p, 22) == 5353 && UdpLength(p, 20) == length
            && AddrAt(p, 12) == src && AddrAt(p, 16) == dst
            && p[28..] == payload
  {
    var p := Datagram(src, dst, total, length, payload);
    HeaderIff(p, 20);
  }

  const HOST := Ipv4Addr(192, 168, 1, 50)
  const TARGET := Ipv4Addr(10, 0, 0, 255)

  // ---------------------------------------------------------------- checksums

  /** A 28-byte datagram as it is received in a minimum-size Ethernet frame. */
  function PaddedFrame(): seq<byte> {
    Datagram(HOST, LIMITED_BROADCAST, 28, 8, seq(18, _ => 0))
  }

  /** That frame is accepted and rewritten without an error, and yet its datagram does not verify at
      the receiver. */
  lemma PaddedFrameExample()
    ensures ExtractPacketInfo(PaddedFrame()).Some? && IsWholeDatagram(PaddedFrame(), 20)
    ensures var (outcome, q) := Rewrite(PaddedFrame(), NO_NAT, TARGET);
            outcome == Rewritten && |q| == 46 && !ReceiverVerifies(q, 20)
  {
    var p, zeros := PaddedFrame(), seq(18, _ => 0);
    DatagramFields(HOST, LIMITED_BROADCAST, 28, 8, zeros);
    PaddedFails(p, NO_NAT, TARGET);
  }

  lemma PaddedFails(p: seq<byte>, opts: NatOptions, target: Ipv4Addr)
    requires HasUdpHeader(p) && ValidateIpv4Header(p) == Some(20) && IsCompleteUdp(p)
    requires UdpLength(p, 20) == 8 && p[28..] == seq(18, _ => 0)
    requires AddrAt(p, 12) == HOST && AddrAt(p, 16) == LIMITED_BROADCAST
    ensures ExtractPacketInfo(p).Some? && |p| == 46
    ensures var (outcome, q) := Rewrite(p, opts, target);
            outcome == Rewritten && !ReceiverVerifies(q, 20)
  {
    ExtractIff(p);
    assert Padding(p, 20) == p[28..];
    ZeroPaddingSpoilsUdpChecksum(p, opts, target);
    WholeAfterRewrite(p, opts, target);
  }

  /** A 28-byte packet in a 46-byte frame that declares a datagram of 26 bytes. */
  function OverlongDatagram(): seq<byte> {
    Datagram(HOST, LIMITED_BROADCAST, 28, 26, seq(18, _ => 0))
  }

  /** It is accepted and relayed, and its receiver finds fewer bytes than the datagram declares. */
  lemma OverlongDatagramExample()
    ensures ExtractPacketInfo(OverlongDatagram()).Some?
    ensures var (outcome, q) := Rewrite(OverlongDatagram(), NO_NAT, TARGET);
            outcome == Rewritten && |q| == 46 && !ReceiverVerifies(q, 20)
  {
    var p := OverlongDatagram();
    DatagramFields(HOST, LIMITED_BROADCAST, 28, 26, seq(18, _ => 0));
    ExtractIff(p);
    WholeAfterRewrite(p, NO_NAT, TARGET);
  }

  /** An intact datagram of ten bytes. */
  function ZeroSumDatagram(): seq<byte> {
    Datagram(HOST, LIMITED_BROADCAST, 30, 10, [0x19, 0x46])
  }

  lemma WordSumOfTen(t: seq<byte>)
    requires |t| == 10
    ensures WordSum(t) == U16At(t, 0) + U16At(t, 2) + U16At(t, 4) + U16At(t, 6) + U16At(t, 8)
  {
    var t2, t4, t6, t8 := t[2..], t[4..], t[6..], t[8..];
    assert t2[2..] == t4 && t4[2..] == t6 && t6[2..] == t8 && t8[2..] == [];
    assert WordSum(t8) == U16At(t, 8);
    assert WordSum(t6) == U16At(t, 6) + WordSum(t8);
    assert WordSum(t4) == U16At(t, 4) + WordSum(t6);
    assert WordSum(t2) == U16At(t, 2) + WordSum(t4);
  }

  lemma PseudoSumOf(src: Ipv4Addr, dst: Ipv4Addr, length: nat)
    ensures PseudoSum(src, dst, length)
            == 0x100 * src.o0 + src.o1 + 0x100 * src.o2 + src.o3
               + 0x100 * dst.o0 + dst.o1 + 0x100 * dst.o2 + dst.o3 + PROTOCOL_UDP + length
  {
    var t := src.Octets() + dst.Octets() + [0, PROTOCOL_UDP];
    WordSumOfTen(t);
  }

  lemma ZeroStored(p: seq<byte>)
    requires HasUdpHeader(p) && ValidateIpv4Header(p) == Some(20) && |p| == 30
    requires AddrAt(p, 12) == HOST && AddrAt(p, 16) == LIMITED_BROADCAST
    requires U16At(p, 20) == 1234 && U16At(p, 22) == 5353 && UdpLength(p, 20) == 10 && p[28..] == [0x19, 0x46]
    ensures var (outcome, q) := Rewrite(p, NO_NAT, TARGET);
            outcome == Rewritten && U16At(q, 26) == 0
  {
    PseudoSumOf(HOST, TARGET, 10);
    assert WordSum([0x19, 0x46]) == 0x1946;
    assert RelayedSum(p, NO_NAT, TARGET) == 0xFFFF;
    UdpChecksumZeroIff(p, NO_NAT, TARGET);
  }

  lemma UnpaddedVerifies(p: seq<byte>)
    requires HasUdpHeader(p) && ValidateIpv4Header(p) == Some(20)
    requires IsUnfragmented(p) && 20 + UdpLength(p, 20) == U16At(p, 2) == |p|
    ensures IsIntact(p, 20)
    ensures var q := Rewrite(p, NO_NAT, TARGET).1; ReceiverVerifies(q, 20)
  {
    UdpChecksumCorrect(p, NO_NAT, TARGET);
  }

  /** It is accepted, relayed and verifies, but carries zero as its checksum, that is none. */
  lemma ZeroChecksumExample()
    ensures ExtractPacketInfo(ZeroSumDatagram()).Some? && IsIntact(ZeroSumDatagram(), 20)
    ensures var (outcome, q) := Rewrite(ZeroSumDatagram(), NO_NAT, TARGET);
            outcome == Rewritten && |q| == 30 && ReceiverVerifies(q, 20) && U16At(q, 26) == 0
  {
    var p := ZeroSumDatagram();
    DatagramFields(HOST, LIMITED_BROADCAST, 30, 10, [0x19, 0x46]);
    ExtractIff(p);
    UnpaddedVerifies(p);
    ZeroStored(p);
  }

  /** The last fragment, at offset 1480, of a larger datagram: the 16 bytes behind its header are data. */
  function LastFragment(): seq<byte> {
    [0x45, 0, 0, 36, 0, 1, 0, 185, 64, 17, 0, 0] + HOST.Octets() + LIMITED_BROADCAST.Octets()
    + [1, 2, 3, 4, 0, 16, 0, 0] + seq(8, _ => 0)
  }

  lemma FragmentFields()
    ensures var p := LastFragment();
            && |p| == 36 && HasUdpHeader(p) && ValidateIpv4Header(p) == Some(20) && IsCompleteUdp(p)
            && U16At(p, 6) == 185 && AddrAt(p, 12) == HOST && AddrAt(p, 16) == LIMITED_BROADCAST
            && U16At(p, 20) == 0x0102 && U16At(p, 22) == 0x0304 && UdpLength(p, 20) == 16 && U16At(p, 26) == 0
            && p[28..] == seq(8, _ => 0)
  {
    HeaderIff(LastFragment(), 20);
  }

  lemma FragmentOverwritten(p: seq<byte>)
    requires |p| == 36 && HasUdpHeader(p) && ValidateIpv4Header(p) == Some(20) && U16At(p, 6) == 185
    requires AddrAt(p, 12) == HOST && AddrAt(p, 16) == LIMITED_BROADCAST
    requires U16At(p, 20) == 0x0102 && U16At(p, 22) == 0x0304 && UdpLength(p, 20) == 16
    requires p[28..] == seq(8, _ => 0)
    ensures var (outcome, q) := Rewrite(p, NO_NAT, TARGET);
            outcome == Rewritten && |q| == 36 && !ReceiverVerifies(q, 20) && U16At(q, 26) != 0
  {
    FragmentSum(p);
    UdpChecksumZeroIff(p, NO_NAT, TARGET);
    UdpChecksumCorrect(p, NO_NAT, TARGET);
  }

  lemma FragmentSum(p: seq<byte>)
    requires |p| == 36 && HasUdpHeader(p) && ValidateIpv4Header(p) == Some(20)
    requires AddrAt(p, 12) == HOST && AddrAt(p, 16) == LIMITED_BROADCAST
    requires U16At(p, 20) == 0x0102 && U16At(p, 22) == 0x0304 && UdpLength(p, 20) == 16
    requires p[28..] == seq(8, _ => 0)
    ensures RelayedSum(p, NO_NAT, TARGET) == 0xD110
  {
    PseudoSumOf(HOST, TARGET, 16);
    ZerosSumToZero(p[28..]);
  }

  /** It is accepted and relayed as if these bytes started with a UDP header, so that two bytes of data
      are overwritten with a checksum. */
  lemma FragmentExample()
    ensures ExtractPacketInfo(LastFragment()).Some?
    ensures var (outcome, q) := Rewrite(LastFragment(), NO_NAT, TARGET);
            && outcome == Rewritten && |q| == 36 && !ReceiverVerifies(q, 20)
            && U16At(q, 26) != U16At(LastFragment(), 26)
  {
    FragmentFields();
    ExtractIff(LastFragment());
    FragmentOverwritten(LastFragment());
  }

  // ---------------------------------------------------------------- packets that are not relayed

  const ALLOW_ALL := Rule(Allow, Protocol.Any, IpMatcher.Any, PortMatcher.Any, IpMatcher.Any, PortMatcher.Any,
                          BroadcastType.Any, NO_NAT)

  /** Two interfaces, everything from eth0 allowed to eth1, which owns the given broadcast address. */
  function TwoInterfaces(broadcast: Ipv4Addr): RelayConfig {
    RelayConfig([PacketSocket("eth0", [TARGET])], [PacketSocket("eth1", [broadcast])], [ALLOW_ALL])
  }

  lemma OfferedByAllowAll(broadcast: Ipv4Addr, src: Ipv4Addr, dst: Ipv4Addr)
    ensures IsOffered(TwoInterfaces(broadcast), None, Event("eth0", Datagram(src, dst, 28, 8, []), 0.0))
    ensures var p := Datagram(src, dst, 28, 8, []);
            Clip(p) == p && |p| == 28 && AddrAt(p, 12) == src && AddrAt(p, 16) == dst
  {
    DatagramFields(src, dst, 28, 8, []);
  }

  /** 192.168.1.127 is the broadcast address of 192.168.1.0/25. A packet to it is not relayed to the
      interface that owns it, although every rule allows it. */
  lemma HalfSubnetExample()
    ensures var owned := Ipv4Addr(192, 168, 1, 127);
            var e := Event("eth0", Datagram(Ipv4Addr(10, 0, 0, 1), owned, 28, 8, []), 0.0);
            && IsOffered(TwoInterfaces(owned), None, e)
            && owned in TwoInterfaces(owned).outputs[0].broadcastAddrs
            && !IsServed(Handle(TwoInterfaces(owned), None, e).1, 0)
  {
    var owned := Ipv4Addr(192, 168, 1, 127);
    var e := Event("eth0", Datagram(Ipv4Addr(10, 0, 0, 1), owned, 28, 8, []), 0.0);
    OfferedByAllowAll(owned, Ipv4Addr(10, 0, 0, 1), owned);
    OwnedDirectedServedIff(TwoInterfaces(owned), None, e, 0);
  }

  /** A DHCP client that has no address yet sends from 0.0.0.0: not relayed, although every rule
      allows it. */
  lemma DhcpExample()
    ensures var e := Event("eth0", Datagram(Ipv4Addr(0, 0, 0, 0), Ipv4Addr(255, 255, 255, 255), 28, 8, []), 0.0);
            && IsOffered(TwoInterfaces(TARGET), None, e)
            && !IsServed(Handle(TwoInterfaces(TARGET), None, e).1, 0)
  {
    var e := Event("eth0", Datagram(Ipv4Addr(0, 0, 0, 0), LIMITED_BROADCAST, 28, 8, []), 0.0);
    OfferedByAllowAll(TARGET, Ipv4Addr(0, 0, 0, 0), LIMITED_BROADCAST);
    LimitedServedIff(TwoInterfaces(TARGET), None, e, 0);
  }

  /** A host address of 10.0.0.0/16, not its broadcast address. */
  const INNER_HOST := Ipv4Addr(10, 0, 1, 255)

  lemma InnerHostIsHost()
    ensures InSubnet(INNER_HOST, Ipv4Addr(10, 0, 0, 1), 16)
    ensures IsValidSource(INNER_HOST, 16) && !IsDirectedBroadcast(INNER_HOST, 16)
  {
    assert Pow2(8) == 0x100;
    Pow2Add(8, 8);
  }

  /** A packet from the host 10.0.1.255 in 10.0.0.0/16 is not relayed, although every rule allows it. */
  lemma RejectedHostExample()
    ensures var e := Event("eth0", Datagram(INNER_HOST, LIMITED_BROADCAST, 28, 8, []), 0.0);
            && IsValidSource(INNER_HOST, 16)
            && IsOffered(TwoInterfaces(TARGET), None, e)
            && !IsServed(Handle(TwoInterfaces(TARGET), None, e).1, 0)
  {
    var e := Event("eth0", Datagram(INNER_HOST, LIMITED_BROADCAST, 28, 8, []), 0.0);
    InnerHostIsHost();
    OfferedByAllowAll(TARGET, INNER_HOST, LIMITED_BROADCAST);
    LimitedServedIff(TwoInterfaces(TARGET), None, e, 0);
  }

  const HALF_BROADCAST := Ipv4Addr(192, 168, 1, 127)

  lemma HalfBroadcastIsBroadcast()
    ensures IsSubnetBroadcast(HALF_BROADCAST, 25)
  {
    assert Pow2(7) == 0x80;
  }

  lemma AcceptedSourceServed(source: Ipv4Addr)
    requires IsAcceptedSource(source)
    ensures var e := Event("eth0", Datagram(source, LIMITED_BROADCAST, 28, 8, []), 0.0);
            IsServed(Handle(TwoInterfaces(TARGET), None, e).1, 0)
  {
    var e := Event("eth0", Datagram(source, LIMITED_BROADCAST, 28, 8, []), 0.0);
    OfferedByAllowAll(TARGET, source, LIMITED_BROADCAST);
    LimitedServedIff(TwoInterfaces(TARGET), None, e, 0);
  }

  /** A packet from 192.168.1.127, the broadcast address of 192.168.1.0/25, is relayed. */
  lemma BroadcastSourceExample()
    ensures var e := Event("eth0", Datagram(HALF_BROADCAST, LIMITED_BROADCAST, 28, 8, []), 0.0);
            IsSubnetBroadcast(HALF_BROADCAST, 25) && IsServed(Handle(TwoInterfaces(TARGET), None, e).1, 0)
  {
    HalfBroadcastIsBroadcast();
    AcceptedSourceServed(HALF_BROADCAST);
  }

  /** A packet with time to live 1, as SSDP uses, that no relay has sent. */
  function SsdpFrame(): seq<byte> {
    [0x45, 0, 0, 28, 0x11, 0x11, 0, 0, 1, 17, 0, 0, 192, 168, 1, 50, 239, 255, 255, 250]
    + [4, 210, 7, 108, 0, 8, 0, 0]
  }

  lemma SsdpFields()
    ensures var p := SsdpFrame();
            && |p| == 28 && IsCompleteUdp(p) && p[8] == 1 && p[4] == 0x11
            && AddrAt(p, 12) == HOST && AddrAt(p, 16) == Ipv4Addr(239, 255, 255, 250)
  {
  }

  /** Time to live 1 alone is no loop marker: the packet is relayed. */
  lemma UnmarkedExample()
    ensures var e := Event("eth0", SsdpFrame(), 0.0);
            SsdpFrame()[8] == 1 && IsServed(Handle(TwoInterfaces(TARGET), None, e).1, 0)
  {
    SsdpFields();
    UnmarkedServed(SsdpFrame());
  }

  lemma UnmarkedServed(p: seq<byte>)
    requires |p| == 28 && IsCompleteUdp(p) && p[4] == 0x11
    requires AddrAt(p, 12) == HOST && AddrAt(p, 16) == Ipv4Addr(239, 255, 255, 250)
    ensures IsServed(Handle(TwoInterfaces(TARGET), None, Event("eth0", p, 0.0)).1, 0)
  {
    AllowAllAllows(UdpInfo(p));
    ServedIff(TwoInterfaces(TARGET), None, Event("eth0", p, 0.0), 0);
  }

  lemma AllowAllAllows(pkt: PacketInfo)
    ensures ShouldRelay([ALLOW_ALL], pkt)
  {
  }

  // ---------------------------------------------------------------- a cycle

  /** Two instances between the same two segments, one in each direction. */
  function Cycle(): seq<Node> {
    [Node(TwoInterfaces(TARGET), [0], [1]), Node(TwoInterfaces(TARGET), [1], [0])]
  }

  function CycleStart(): State {
    State([], [None, None], 0, [])
  }

  function CycleFrame(): seq<byte> {
    Datagram(HOST, LIMITED_BROADCAST, 28, 8, [])
  }

  lemma CycleIsValid()
    ensures ValidNet(Cycle()) && IsInitial(Cycle(), CycleStart()) && ValidState(Cycle(), CycleStart())
  {
  }

  lemma OnlyInput(net: seq<Node>, x: Delivery)
    requires net == Cycle()
    ensures Attached(net, x, 0) <==> x.node == 0 && x.input == 0
  {
  }

  /** After the host has sent, the frame is under way to the first instance. */
  lemma AfterHostSend(net: seq<Node>, s: State, bytes: seq<byte>)
    requires net == Cycle() && ValidNet(net) && s == CycleStart() && ValidState(net, s)
    ensures var t := Next(net, s, HostSend(0, bytes));
            && |t.pending| > 0 && t.pending[0] == Delivery(0, 0, bytes, 0, false)
            && t.limiters == s.limiters
  {
    var t := Next(net, s, HostSend(0, bytes));
    var d := Delivery(0, 0, bytes, 0, false);
    HostSendMeaning(net, s, 0, bytes);
    OnlyInput(net, d);
    assert t.pending[|s.pending|..] == t.pending;
    assert d in t.pending;
    assert t.pending[0] in t.pending;
    OnlyInput(net, t.pending[0]);
  }

  lemma FrameIsSent(cfg: RelayConfig, frame: seq<byte>) returns (k: nat)
    requires cfg == TwoInterfaces(TARGET) && frame == CycleFrame()
    ensures var sent := Handle(cfg, None, Event("eth0", frame, 0.0)).1;
            k < |sent| && sent[k].output == 0
  {
    OfferedByAllowAll(TARGET, HOST, LIMITED_BROADCAST);
    LimitedServedIff(cfg, None, Event("eth0", frame, 0.0), 0);
    k :| 0 <= k < |Handle(cfg, None, Event("eth0", frame, 0.0)).1|
         && Handle(cfg, None, Event("eth0", frame, 0.0)).1[k].output == 0;
  }

  lemma AfterDelivery(net: seq<Node>, t: State, frame: seq<byte>) returns (j: nat)
    requires net == Cycle() && ValidNet(net) && ValidState(net, t) && frame == CycleFrame()
    requires |t.pending| > 0 && t.pending[0] == Delivery(0, 0, frame, 0, false) && t.limiters == [None, None]
    ensures Enabled(net, t, Deliver(0, frame, 0.0))
    ensures var u := Next(net, t, Deliver(0, frame, 0.0));
            && j < |u.pending| && u.pending[j].relayed && u.pending[j].node == 1 && u.pending[j].input == 0
            && |u.log| > 0
  {
    var k := FrameIsSent(net[0].cfg, frame);
    var x := Delivery(1, 0, Handle(net[0].cfg, None, Event("eth0", frame, 0.0)).1[k].bytes, 0, true);
    j := SentArrives(net, t, 0, frame, 0.0, k, x);
  }

  /** In a cycle, a relayed frame does reach the other instance: there are runs in which a relayed frame
      is under way to it, for which being dropped is not an empty promise. */
  lemma CycleExample() returns (j: nat)
    ensures var actions := [HostSend(0, CycleFrame()), Deliver(0, CycleFrame(), 0.0)];
            && ValidNet(Cycle()) && IsInitial(Cycle(), CycleStart())
            && Exec(Cycle(), CycleStart(), actions).Some?
            && var u := Exec(Cycle(), CycleStart(), actions).value;
               j < |u.pending| && u.pending[j].relayed && u.pending[j].node == 1 && |u.log| > 0
  {
    var net, s, frame := Cycle(), CycleStart(), CycleFrame();
    var first, second := HostSend(0, frame), Deliver(0, frame, 0.0);
    CycleIsValid();
    AfterHostSend(net, s, frame);
    ExecNext(net, s, [], first, s);
    assert [] + [first] == [first] && [first] + [second] == [first, second];
    var t := Next(net, s, first);
    j := AfterDelivery(net, t, frame);
    ExecNext(net, s, [first], second, t);
  }

  // ---------------------------------------------------------------- rules

  const DIRECTED := ALLOW_ALL.(broadcastType := Directed)

  lemma JoinFour(a: string, b: string, c: string, d: string)
    ensures Join([a, b, c, d], ' ') == a + " " + b + " " + c + " " + d
  {
    var words := [a, b, c, d];
    assert words[1..] == [b, c, d] && words[2..] == [c, d] && words[3..] == [d];
    assert Join([d], ' ') == d;
    assert [c, d][1..] == [d] && Join([c, d], ' ') == c + " " + d;
    assert [b, c, d][1..] == [c, d] && Join([b, c, d], ' ') == b + " " + (c + " " + d);
  }

  lemma DirectedWords()
    ensures RuleWords(DIRECTED) == ["allow", "any", "any:any", "directed:any"]
  {
    var words := RuleWords(DIRECTED);
    assert PrintOptions(NO_NAT) == [];
    assert words[2] == "any:any";
    assert words[3] == "directed:any";
  }

  lemma DirectedText()
    ensures PrintRule(DIRECTED) == "allow any any:any directed:any"
  {
    DirectedWords();
    JoinFour("allow", "any", "any:any", "directed:any");
  }

  /** The rule as it is written in a configuration. */
  lemma DirectedParses()
    ensures RuleOf("allow any any:any directed:any") == Some(DIRECTED)
  {
    DirectedText();
    PrintedParses(DIRECTED, "allow any any:any directed:any");
  }

  lemma PrintedParses(r: Rule, line: string)
    requires WellFormedRule(r) && PrintRule(r) == line
    ensures RuleOf(line) == Some(r)
  {
    RuleRoundTrip(r);
  }

  /** A rule for directed broadcasts matches packets to the host 10.0.1.255 in 10.0.0.0/16. */
  lemma DirectedHostExample(pkt: PacketInfo)
    requires pkt.dstIp == INNER_HOST
    ensures RuleOf("allow any any:any directed:any") == Some(DIRECTED)
    ensures ShouldRelay([DIRECTED], pkt)
    ensures InSubnet(pkt.dstIp, Ipv4Addr(10, 0, 0, 1), 16) && !IsDirectedBroadcast(pkt.dstIp, 16)
  {
    DirectedParses();
    DirectedMatchesEndsIn255(pkt);
    InnerHostIsHost();
  }

  lemma DirectedMatchesEndsIn255(pkt: PacketInfo)
    requires DirectedMatches(pkt.dstIp)
    ensures ShouldRelay([DIRECTED], pkt)
  {
  }

  const GROUP := Ipv4Addr(239, 0, 0, 255)

  lemma GroupIsServed(cfg: RelayConfig, e: Event)
    requires cfg == TwoInterfaces(TARGET).(rules := [DIRECTED]) && e.ingress == "eth0"
    requires |e.frame| <= BUFFER_SIZE && IsCompleteUdp(e.frame) && !IsAlreadyRelayed(e.frame)
    requires AddrAt(e.frame, 12) == HOST && AddrAt(e.frame, 16) == GROUP
    ensures IsServed(Handle(cfg, None, e).1, 0)
  {
    DirectedMatchesEndsIn255(UdpInfo(e.frame));
    ServedIff(cfg, None, e, 0);
  }

  /** A packet to the multicast group 239.0.0.255 is relayed by a rule for directed broadcasts. */
  lemma DirectedMulticastExample()
    ensures var cfg := TwoInterfaces(TARGET).(rules := [DIRECTED]);
            var e := Event("eth0", Datagram(HOST, GROUP, 28, 8, []), 0.0);
            && RuleOf("allow any any:any directed:any") == Some(DIRECTED)
            && GROUP.IsMulticast()
            && IsServed(Handle(cfg, None, e).1, 0)
  {
    DirectedParses();
    DatagramFields(HOST, GROUP, 28, 8, []);
    GroupIsServed(TwoInterfaces(TARGET).(rules := [DIRECTED]), Event("eth0", Datagram(HOST, GROUP, 28, 8, []), 0.0));
  }

  /** A rule that leaves both ports out, as the documented grammar allows, is rejected. */
  lemma PortlessRuleExample()
    ensures RuleOf("allow udp any any") == None
  {
    var words := ["allow", "udp", "any", "any"];
    JoinFour("allow", "udp", "any", "any");
    assert Join(words, ' ') == "allow udp any any";
    KeywordsAreTokens();
    FourTokens("allow", "udp", "any", "any");
    SplitWhitespaceOfJoin(words);
    SplitNone("any", ':');
  }
}
