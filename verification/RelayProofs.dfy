/** What one relay instance guarantees over whole traces (src/relay.rs). */
module RelayProofs {
  import opened Net
  import opened Config
  import opened Filter
  import opened Packet
  import opened Nat
  import opened NatProofs
  import opened RateLimit
  import opened Socket
  import opened Relay
  import Machine

  // ---------------------------------------------------------------- accepted packets

  /** An accepted packet reaches sending without failure: its rule can be looked up again, and
      rewriting it succeeds for every output and every choice of options. */
  lemma AcceptedNeverFails(rules: seq<Rule>, frame: seq<byte>, opts: NatOptions, destBroadcast: Ipv4Addr)
    requires Accept(rules, frame).Some?
    ensures GetNatRule(rules, Accept(rules, frame).value).Some?
    ensures HasUdpHeader(frame) && Rewrite(frame, opts, destBroadcast).0 == Rewritten
  {
    RelayedIffDecidedByAllow(rules, Accept(rules, frame).value);
    ExtractIff(frame);
  }

  /** So an output gets a copy exactly when it is one that the packet should go to. */
  lemma CopyIffShouldRelayTo(rules: seq<Rule>, ingress: string, frame: seq<byte>, out: PacketSocket)
    requires Accept(rules, frame).Some?
    ensures var info := Accept(rules, frame).value;
            && GetNatRule(rules, info).Some?
            && (Copy(rules, ingress, frame, info, out).Some? <==> ShouldRelayTo(info.dstIp, ingress, out))
  {
    var info := Accept(rules, frame).value;
    RelayedIffDecidedByAllow(rules, info);
    AcceptedNeverFails(rules, frame, GetNatRule(rules, info).value.natOptions,
                       NatRewriteTarget(info.dstIp, out.broadcastAddrs));
  }

  /** What every copy looks like: same length, the loop marker, a verifying IP checksum, and a
      datagram that verifies at its receiver exactly when the one received was intact. */
  predicate GoodCopy(frame: seq<byte>, bytes: seq<byte>) {
    && |bytes| == |frame|
    && HasUdpHeader(frame)
    && var hl := ValidateIpv4Header(frame).value;
       && ValidateIpv4Header(bytes) == Some(hl)
       && IsAlreadyRelayed(bytes)
       && HeaderVerifies(bytes)
       && (ReceiverVerifies(bytes, hl) <==> IsIntact(frame, hl))
  }

  lemma RewrittenIsGoodCopy(frame: seq<byte>, opts: NatOptions, destBroadcast: Ipv4Addr)
    requires HasUdpHeader(frame)
    ensures var (outcome, bytes) := Rewrite(frame, opts, destBroadcast);
            outcome == Rewritten && GoodCopy(frame, bytes)
  {
    UdpChecksumCorrect(frame, opts, destBroadcast);
    FieldsAfterRewrite(frame, opts, destBroadcast);
    HeaderChecksumCorrect(frame, opts, destBroadcast);
  }

  lemma CopyIsGood(rules: seq<Rule>, ingress: string, frame: seq<byte>, out: PacketSocket)
    requires Accept(rules, frame).Some?
    ensures var info := Accept(rules, frame).value;
            && GetNatRule(rules, info).Some?
            && (Copy(rules, ingress, frame, info, out).Some? ==>
                  GoodCopy(frame, Copy(rules, ingress, frame, info, out).value))
  {
    var info := Accept(rules, frame).value;
    RelayedIffDecidedByAllow(rules, info);
    var opts := GetNatRule(rules, info).value.natOptions;
    var target := NatRewriteTarget(info.dstIp, out.broadcastAddrs);
    AcceptedNeverFails(rules, frame, opts, target);
    RewrittenIsGoodCopy(frame, opts, target);
  }

  // ---------------------------------------------------------------- destinations

  /** An address for which the relay looks at the broadcast addresses of an output: not multicast and
      not the limited broadcast address. */
  predicate NeedsOwner(a: Ipv4Addr) {
    !a.IsMulticast() && a != LIMITED_BROADCAST
  }

  /** A copy as the options of its rule ask for it: the chosen or the original source and ports, the
      destination given by `dnat` or found for the output, and every other byte as it was received,
      except the loop marker and the checksums. */
  predicate FollowsOptions(frame: seq<byte>, bytes: seq<byte>, opts: NatOptions, broadcasts: seq<Ipv4Addr>) {
    && HasUdpHeader(frame)
    && |bytes| == |frame|
    && var hl, dst := ValidateIpv4Header(frame).value, AddrAt(frame, 16);
       && AddrAt(bytes, 12) == (if opts.sourceIp.Some? then opts.sourceIp.value else AddrAt(frame, 12))
       && AddrAt(bytes, 16) == (if opts.destIp.Some? then opts.destIp.value
                                else if dst.IsMulticast() || dst in broadcasts then dst
                                else if broadcasts != [] then broadcasts[0]
                                else LIMITED_BROADCAST)
       && U16At(bytes, hl) == (if opts.sourcePort.Some? then opts.sourcePort.value else U16At(frame, hl))
       && U16At(bytes, hl + 2) == (if opts.destPort.Some? then opts.destPort.value else U16At(frame, hl + 2))
       && forall i | 0 <= i < |frame| && !InRewrittenField(i, hl, opts, PROTOCOL_UDP) :: bytes[i] == frame[i]
  }

  lemma RewrittenFollowsOptions(frame: seq<byte>, opts: NatOptions, broadcasts: seq<Ipv4Addr>)
    requires HasUdpHeader(frame)
    requires Rewrite(frame, opts, NatRewriteTarget(AddrAt(frame, 16), broadcasts)).0 == Rewritten
    ensures var bytes := Rewrite(frame, opts, NatRewriteTarget(AddrAt(frame, 16), broadcasts)).1;
            FollowsOptions(frame, bytes, opts, broadcasts)
  {
    var target := NatRewriteTarget(AddrAt(frame, 16), broadcasts);
    FieldsAfterRewrite(frame, opts, target);
    PortsAfterRewrite(frame, opts, target);
    RewriteFrame(frame, opts, target);
  }

  lemma RewrittenCopy(frame: seq<byte>, opts: NatOptions, broadcasts: seq<Ipv4Addr>) returns (bytes: seq<byte>)
    requires HasUdpHeader(frame)
    ensures var target := NatRewriteTarget(AddrAt(frame, 16), broadcasts);
            Rewrite(frame, opts, target) == (Rewritten, bytes)
    ensures FollowsOptions(frame, bytes, opts, broadcasts)
  {
    var target := NatRewriteTarget(AddrAt(frame, 16), broadcasts);
    IpFields(frame, opts, target);
    bytes := Rewrite(frame, opts, target).1;
    RewrittenFollowsOptions(frame, opts, broadcasts);
  }

  /** Every output but the one on the ingress interface gets a copy, unless the packet goes to an
      address that needs an owner and that the output does not own. Without `dnat`, the copy keeps a multicast
      destination or one that the output owns, and goes to the output's primary broadcast address
      otherwise. */
  lemma DestinationCorrect(rules: seq<Rule>, ingress: string, frame: seq<byte>, out: PacketSocket)
    requires Accept(rules, frame).Some? && out.broadcastAddrs != []
    ensures var info := Accept(rules, frame).value;
            && GetNatRule(rules, info).Some?
            && var dst, copy := info.dstIp, Copy(rules, ingress, frame, info, out);
            && (copy.Some? <==> ingress != out.ifname && (!NeedsOwner(dst) || dst in out.broadcastAddrs))
            && (copy.Some? ==> |copy.value| >= 20)
            && (copy.Some? && GetNatRule(rules, info).value.natOptions.destIp.None? ==>
                  var final := AddrAt(copy.value, 16);
                  && final == (if dst.IsMulticast() || dst in out.broadcastAddrs then dst
                               else out.broadcastAddrs[0])
                  && (DestMac(copy.value)[..3] == [0x01, 0x00, 0x5e] <==> final.IsMulticast()))
  {
    var info := Accept(rules, frame).value;
    CopyIffShouldRelayTo(rules, ingress, frame, out);
    ExtractIff(frame);
    var opts := GetNatRule(rules, info).value.natOptions;
    var bytes := RewrittenCopy(frame, opts, out.broadcastAddrs);
    DestMacShared(bytes, bytes);
  }

  /** The rule that decides an accepted packet allows it, and every copy follows the options of that
      rule and no other. */
  lemma CopyFollowsRule(rules: seq<Rule>, ingress: string, frame: seq<byte>, out: PacketSocket, i: int)
    requires Accept(rules, frame).Some? && DecidedBy(rules, Accept(rules, frame).value, i)
    ensures var info := Accept(rules, frame).value;
            && rules[i].action == Allow
            && GetNatRule(rules, info).Some?
            && var copy := Copy(rules, ingress, frame, info, out);
               copy.Some? ==> FollowsOptions(frame, copy.value, rules[i].natOptions, out.broadcastAddrs)
  {
    var info := Accept(rules, frame).value;
    FindMatchIsFirst(rules, info, i);
    ExtractIff(frame);
    var opts, target := rules[i].natOptions, NatRewriteTarget(info.dstIp, out.broadcastAddrs);
    AcceptedNeverFails(rules, frame, opts, target);
    RewrittenFollowsOptions(frame, opts, out.broadcastAddrs);
  }

  // ---------------------------------------------------------------- every frame ever sent

  /** The frames sent are the copies there are: each to the output it was made for, with the hardware
      address of its destination, and in the order of the outputs. */
  predicate AreCopies(out: seq<Sent>, copies: seq<Option<seq<byte>>>) {
    && |out| <= |copies|
    && (forall k | 0 <= k < |out| :: IsCopyFor(out[k], copies))
    && (forall k, l | 0 <= k < l < |out| :: out[k].output < out[l].output)
    && (forall i | 0 <= i < |copies| && copies[i].Some? :: IsServed(out, i))
  }

  predicate IsCopyFor(sent: Sent, copies: seq<Option<seq<byte>>>) {
    && sent.output < |copies|
    && copies[sent.output] == Some(sent.bytes)
    && sent.mac == DestMac(sent.bytes)
  }

  predicate IsServed(out: seq<Sent>, i: nat) {
    exists k :: 0 <= k < |out| && out[k].output == i
  }

  lemma NoCopyMore(out: seq<Sent>, copies: seq<Option<seq<byte>>>)
    requires AreCopies(out, copies)
    ensures AreCopies(out, copies + [None])
  {
    var all := copies + [None];
    assert forall k | 0 <= k < |out| :: IsCopyFor(out[k], copies) ==> IsCopyFor(out[k], all);
    assert forall i | 0 <= i < |all| && all[i].Some? :: copies[i].Some?;
  }

  lemma AllCopiesFor(out: seq<Sent>, copies: seq<Option<seq<byte>>>, bytes: seq<byte>)
    requires AreCopies(out, copies)
    ensures var all, more := copies + [Some(bytes)], out + [Sent(|copies|, DestMac(bytes), bytes)];
            forall k | 0 <= k < |more| :: IsCopyFor(more[k], all)
  {
    var all := copies + [Some(bytes)];
    assert forall k | 0 <= k < |out| :: IsCopyFor(out[k], copies) ==> IsCopyFor(out[k], all);
  }

  lemma AllServed(out: seq<Sent>, copies: seq<Option<seq<byte>>>, bytes: seq<byte>)
    requires AreCopies(out, copies)
    ensures var all, more := copies + [Some(bytes)], out + [Sent(|copies|, DestMac(bytes), bytes)];
            forall i | 0 <= i < |all| && all[i].Some? :: IsServed(more, i)
  {
    var all, more := copies + [Some(bytes)], out + [Sent(|copies|, DestMac(bytes), bytes)];
    forall i | 0 <= i < |all| && all[i].Some?
      ensures IsServed(more, i)
    {
      if i < |copies| {
        assert copies[i].Some? && IsServed(out, i);
        var k :| 0 <= k < |out| && out[k].output == i;
        assert more[k].output == i;
      } else {
        assert more[|out|].output == i;
      }
    }
  }

  lemma OneCopyMore(out: seq<Sent>, copies: seq<Option<seq<byte>>>, bytes: seq<byte>)
    requires AreCopies(out, copies)
    ensures AreCopies(out + [Sent(|copies|, DestMac(bytes), bytes)], copies + [Some(bytes)])
  {
    AllCopiesFor(out, copies, bytes);
    AllServed(out, copies, bytes);
    assert forall k | 0 <= k < |out| :: IsCopyFor(out[k], copies) ==> out[k].output < |copies|;
  }

  lemma CopyMore(out: seq<Sent>, copies: seq<Option<seq<byte>>>, n: nat)
    requires n < |copies| && AreCopies(out, copies[..n])
    ensures AreCopies(out + SentTo(n, copies[n]), copies[..n + 1])
  {
    assert copies[..n + 1] == copies[..n] + [copies[n]];
    match copies[n]
    case None =>
      NoCopyMore(out, copies[..n]);
      assert out + [] == out;
    case Some(bytes) =>
      OneCopyMore(out, copies[..n], bytes);
  }

  lemma {:induction false} FirstCopies(copies: seq<Option<seq<byte>>>, n: nat)
    requires n <= |copies|
    ensures AreCopies(SendAll(copies[..n]), copies[..n])
  {
    if n == 0 {
    } else {
      FirstCopies(copies, n - 1);
      SendOneMore(copies, n - 1);
      CopyMore(SendAll(copies[..n - 1]), copies, n - 1);
    }
  }

  lemma SendAllCopies(copies: seq<Option<seq<byte>>>)
    ensures AreCopies(SendAll(copies), copies)
  {
    FirstCopies(copies, |copies|);
    assert copies[..|copies|] == copies;
  }

  /** `sent` is the copy that one output gets of the accepted packet in event `e`. */
  predicate CopyOf(cfg: RelayConfig, e: Event, sent: Sent) {
    var accepted := Accept(cfg.rules, Clip(e.frame));
    && accepted.Some?
    && GetNatRule(cfg.rules, accepted.value).Some?
    && IsCopyFor(sent, Copies(cfg, e.ingress, Clip(e.frame), accepted.value))
  }

  function IsCopyOf(cfg: RelayConfig, e: Event): Sent -> bool {
    sent => CopyOf(cfg, e, sent)
  }

  /** One event is sent once to every output that gets a copy, and to no other. Without an admission
      nothing is sent. */
  lemma HandleCopies(cfg: RelayConfig, limiter: Option<Bucket>, e: Event)
    ensures var accepted, out := Accept(cfg.rules, Clip(e.frame)), Handle(cfg, limiter, e).1;
            && Machine.Each(IsCopyOf(cfg, e), out)
            && |out| <= |cfg.outputs|
            && (accepted.Some? ==> GetNatRule(cfg.rules, accepted.value).Some?)
            && if accepted.Some? && Permitted(limiter, e.now)
               then AreCopies(out, Copies(cfg, e.ingress, Clip(e.frame), accepted.value))
               else out == []
  {
    var accepted := Accept(cfg.rules, Clip(e.frame));
    if accepted.Some? {
      RelayedIffDecidedByAllow(cfg.rules, accepted.value);
      SendAllCopies(Copies(cfg, e.ingress, Clip(e.frame), accepted.value));
    }
  }

  /** Every frame sent in any trace is the copy of one received packet for one output: nothing of any
      other packet or output enters it. */
  lemma {:induction false} SentAreCopies(cfg: RelayConfig, limiter: Option<Bucket>, events: seq<Event>)
    ensures AllCopies(cfg, events, Process(cfg, limiter, events).1)
    decreases |events|
  {
    if |events| == 0 {
    } else {
      var init, e := events[..|events| - 1], events[|events| - 1];
      SentAreCopies(cfg, limiter, init);
      OneMoreEvent(cfg, limiter, init, e);
      assert events == init + [e];
    }
  }

  lemma OneMoreEvent(cfg: RelayConfig, limiter: Option<Bucket>, init: seq<Event>, e: Event)
    requires AllCopies(cfg, init, Process(cfg, limiter, init).1)
    ensures AllCopies(cfg, init + [e], Process(cfg, limiter, init + [e]).1)
  {
    var (l, out) := Process(cfg, limiter, init);
    Machine.RunSnoc(Stepper(cfg), limiter, init, e);
    HandleCopies(cfg, l, e);
    AppendCopies(cfg, init, e, out, Handle(cfg, l, e).1);
  }

  predicate AllCopies(cfg: RelayConfig, events: seq<Event>, out: seq<Sent>) {
    forall k | 0 <= k < |out| :: CopyOfSome(cfg, events, out[k])
  }

  predicate CopyOfSome(cfg: RelayConfig, events: seq<Event>, sent: Sent) {
    exists i :: 0 <= i < |events| && CopyOf(cfg, events[i], sent)
  }

  lemma AppendCopies(cfg: RelayConfig, init: seq<Event>, e: Event, out: seq<Sent>, more: seq<Sent>)
    requires AllCopies(cfg, init, out)
    requires Machine.Each(IsCopyOf(cfg, e), more)
    ensures AllCopies(cfg, init + [e], out + more)
  {
    var events := init + [e];
    assert events[|init|] == e;
    forall k | 0 <= k < |out|
      ensures CopyOfSome(cfg, events, out[k])
    {
      var i :| 0 <= i < |init| && CopyOf(cfg, init[i], out[k]);
      assert events[i] == init[i];
    }
    assert forall k | 0 <= k < |more| :: IsCopyOf(cfg, e)(more[k]);
  }

  /** An admitted packet goes to exactly the outputs that it should be relayed to. */
  lemma AdmittedReachesItsOutputs(cfg: RelayConfig, limiter: Option<Bucket>, e: Event, i: nat)
    requires Accept(cfg.rules, Clip(e.frame)).Some? && Permitted(limiter, e.now) && i < |cfg.outputs|
    ensures var info := Accept(cfg.rules, Clip(e.frame)).value;
            IsServed(Handle(cfg, limiter, e).1, i) <==> ShouldRelayTo(info.dstIp, e.ingress, cfg.outputs[i])
  {
    HandleCopies(cfg, limiter, e);
    CopyIffShouldRelayTo(cfg.rules, e.ingress, Clip(e.frame), cfg.outputs[i]);
    var copies := Copies(cfg, e.ingress, Clip(e.frame), Accept(cfg.rules, Clip(e.frame)).value);
    ServedIffCopied(Handle(cfg, limiter, e).1, copies, i);
  }

  lemma ServedIffCopied(out: seq<Sent>, copies: seq<Option<seq<byte>>>, i: nat)
    requires AreCopies(out, copies) && i < |copies|
    ensures IsServed(out, i) <==> copies[i].Some?
  {
    if IsServed(out, i) {
      var k :| 0 <= k < |out| && out[k].output == i;
      assert IsCopyFor(out[k], copies);
    }
  }

  /** What the rules are asked about a complete packet. */
  function UdpInfo(frame: seq<byte>): PacketInfo
    requires IsCompleteUdp(frame)
  {
    var hl := ValidateIpv4Header(frame).value;
    PacketInfo(Udp, AddrAt(frame, 12), AddrAt(frame, 16), U16At(frame, hl), U16At(frame, hl + 2))
  }

  /** A complete packet that no relay has sent, that the rules allow and the limiter admits. */
  predicate IsOffered(cfg: RelayConfig, limiter: Option<Bucket>, e: Event) {
    var frame := Clip(e.frame);
    && IsCompleteUdp(frame)
    && !(frame[8] == 1 && frame[4] == 0xBC && frame[5] == 0xBC)
    && ShouldRelay(cfg.rules, UdpInfo(frame))
    && Permitted(limiter, e.now)
  }

  lemma AcceptIff(rules: seq<Rule>, frame: seq<byte>)
    ensures Accept(rules, frame).Some?
            <==> && IsCompleteUdp(frame) && !IsAlreadyRelayed(frame) && ShouldRelay(rules, UdpInfo(frame))
                 && IsAcceptedSource(AddrAt(frame, 12))
                 && (AddrAt(frame, 16).IsMulticast() || AddrAt(frame, 16).o3 == 255)
    ensures Accept(rules, frame).Some? ==> Accept(rules, frame).value == UdpInfo(frame)
  {
    ExtractIff(frame);
  }

  /** Which packets an output gets, of all there are: those offered from an accepted source to a
      multicast address, the limited broadcast address or another address that ends in 255 and that
      the output owns, and that came in elsewhere. */
  lemma ServedIff(cfg: RelayConfig, limiter: Option<Bucket>, e: Event, i: nat)
    requires i < |cfg.outputs|
    ensures var frame, out := Clip(e.frame), cfg.outputs[i];
            IsServed(Handle(cfg, limiter, e).1, i)
            <==> && IsOffered(cfg, limiter, e)
                 && IsAcceptedSource(AddrAt(frame, 12))
                 && (!NeedsOwner(AddrAt(frame, 16))
                     || (AddrAt(frame, 16).o3 == 255 && AddrAt(frame, 16) in out.broadcastAddrs))
                 && e.ingress != out.ifname
  {
    var frame := Clip(e.frame);
    AcceptIff(cfg.rules, frame);
    MarkerIff(frame);
    HandleCopies(cfg, limiter, e);
    if Accept(cfg.rules, frame).Some? && Permitted(limiter, e.now) {
      AdmittedReachesItsOutputs(cfg, limiter, e, i);
    }
  }

  /** A packet offered to a broadcast address that the output owns is relayed there exactly when the
      address ends in 255. */
  lemma OwnedDirectedServedIff(cfg: RelayConfig, limiter: Option<Bucket>, e: Event, i: nat)
    requires i < |cfg.outputs| && e.ingress != cfg.outputs[i].ifname && IsOffered(cfg, limiter, e)
    requires var frame := Clip(e.frame);
             && IsAcceptedSource(AddrAt(frame, 12)) && NeedsOwner(AddrAt(frame, 16))
             && AddrAt(frame, 16) in cfg.outputs[i].broadcastAddrs
    ensures IsServed(Handle(cfg, limiter, e).1, i) <==> AddrAt(Clip(e.frame), 16).o3 == 255
  {
    ServedIff(cfg, limiter, e, i);
  }

  /** A packet offered to the limited broadcast address, as DHCP clients send, is relayed to another
      output exactly when its source is accepted: not 0.0.0.0, not multicast, not ending in 255. */
  lemma LimitedServedIff(cfg: RelayConfig, limiter: Option<Bucket>, e: Event, i: nat)
    requires i < |cfg.outputs| && e.ingress != cfg.outputs[i].ifname && IsOffered(cfg, limiter, e)
    requires AddrAt(Clip(e.frame), 16) == LIMITED_BROADCAST
    ensures IsServed(Handle(cfg, limiter, e).1, i) <==> IsAcceptedSource(AddrAt(Clip(e.frame), 12))
  {
    ServedIff(cfg, limiter, e, i);
  }

  /** Every frame that an event sends is a good copy of the packet received. */
  lemma CopyOfIsGood(cfg: RelayConfig, e: Event, sent: Sent)
    requires CopyOf(cfg, e, sent)
    ensures GoodCopy(Clip(e.frame), sent.bytes)
  {
    CopyIsGood(cfg.rules, e.ingress, Clip(e.frame), cfg.outputs[sent.output]);
  }

  /** A host without an address yet, such as a DHCP client, is never relayed, whatever the rules. */
  lemma UnspecifiedSourceIsNeverRelayed(cfg: RelayConfig, limiter: Option<Bucket>, e: Event)
    requires |e.frame| >= 20 && e.frame[12..16] == [0, 0, 0, 0]
    ensures Handle(cfg, limiter, e) == (limiter, [])
  {
    var zeros := e.frame[12..16];
    assert e.frame[12] == zeros[0] && e.frame[13] == zeros[1] && e.frame[14] == zeros[2] && e.frame[15] == zeros[3];
    assert AddrAt(Clip(e.frame), 12).U32() == 0;
    ExtractIff(Clip(e.frame));
  }

  /** A marked packet has no effect, whatever else it holds. */
  lemma MarkedIsIgnored(cfg: RelayConfig, limiter: Option<Bucket>, e: Event)
    requires IsCompleteUdp(Clip(e.frame))
    requires e.frame[8] == 1 && e.frame[4] == 0xBC && e.frame[5] == 0xBC
    ensures Handle(cfg, limiter, e) == (limiter, [])
  {
    MarkerIff(Clip(e.frame));
  }

  // ---------------------------------------------------------------- what a run receives

  /** The k-th event of a run is what socket `at.1` gave in round `at.0`. */
  predicate IsReception(inputs: seq<PacketSocket>, rounds: seq<seq<Reception>>, at: (nat, nat), e: Event) {
    && at.0 < |rounds| && at.1 < |rounds[at.0]| && at.1 < |inputs|
    && rounds[at.0][at.1] == Received(e.frame, e.now)
    && e.ingress == inputs[at.1].ifname
  }

  predicate Earlier(a: (nat, nat), b: (nat, nat)) {
    a.0 < b.0 || (a.0 == b.0 && a.1 < b.1)
  }

  /** The events are the receptions at these places, in order. */
  predicate AreReceptions(inputs: seq<PacketSocket>, rounds: seq<seq<Reception>>, events: seq<Event>,
                          at: seq<(nat, nat)>)
  {
    && |at| == |events|
    && (forall k | 0 <= k < |at| :: IsReception(inputs, rounds, at[k], events[k]))
    && (forall k, l | 0 <= k < l < |at| :: Earlier(at[k], at[l]))
  }

  /** All receptions of the first `r` rounds and of the first `n` sockets of the next are at these places. */
  ghost predicate HasReceptions(rounds: seq<seq<Reception>>, at: seq<(nat, nat)>, r: nat, n: nat) {
    && (forall k | 0 <= k < |at| :: at[k].0 < r || (at[k].0 == r && at[k].1 < n))
    && (forall q: nat, i: nat | && q < |rounds| && i < |rounds[q]| && (q < r || (q == r && i < n))
                               && rounds[q][i].Received? ::
          (q, i) in at)
  }

  lemma OneReception(inputs: seq<PacketSocket>, rounds: seq<seq<Reception>>, events: seq<Event>,
                     at: seq<(nat, nat)>, r: nat, n: nat) returns (more: seq<(nat, nat)>)
    requires r < |rounds| && n < |rounds[r]| == |inputs|
    requires AreReceptions(inputs, rounds, events, at) && HasReceptions(rounds, at, r, n)
    ensures AreReceptions(inputs, rounds, events + ReceptionEvents(inputs[n], rounds[r][n]), more)
    ensures HasReceptions(rounds, more, r, n + 1)
  {
    if rounds[r][n].Received? {
      more := at + [(r, n)];
      assert forall x | x in at :: x in more;
      assert more[|at|] == (r, n);
    } else {
      more := at;
      assert events + [] == events;
    }
  }

  /** One more socket of a round. */
  lemma SocketReceptions(inputs: seq<PacketSocket>, rounds: seq<seq<Reception>>, events: seq<Event>,
                         at: seq<(nat, nat)>, r: nat, n: nat) returns (more: seq<(nat, nat)>)
    requires r < |rounds| && n < |rounds[r]| == |inputs|
    requires AreReceptions(inputs, rounds, events + RoundEvents(inputs, rounds[r], n), at)
    requires HasReceptions(rounds, at, r, n)
    ensures AreReceptions(inputs, rounds, events + RoundEvents(inputs, rounds[r], n + 1), more)
    ensures HasReceptions(rounds, more, r, n + 1)
  {
    var so, last := RoundEvents(inputs, rounds[r], n), ReceptionEvents(inputs[n], rounds[r][n]);
    more := OneReception(inputs, rounds, events + so, at, r, n);
    assert events + (so + last) == (events + so) + last;
  }

  lemma {:induction false} RoundReceptions(inputs: seq<PacketSocket>, rounds: seq<seq<Reception>>, events: seq<Event>,
                                           at: seq<(nat, nat)>, r: nat, n: nat) returns (more: seq<(nat, nat)>)
    requires r < |rounds| && n <= |rounds[r]| == |inputs|
    requires AreReceptions(inputs, rounds, events, at) && HasReceptions(rounds, at, r, 0)
    ensures AreReceptions(inputs, rounds, events + RoundEvents(inputs, rounds[r], n), more)
    ensures HasReceptions(rounds, more, r, n)
  {
    if n == 0 {
      more := at;
      assert events + [] == events;
    } else {
      var before := RoundReceptions(inputs, rounds, events, at, r, n - 1);
      more := SocketReceptions(inputs, rounds, events, before, r, n - 1);
    }
  }

  lemma {:induction false} PrefixReceptions(inputs: seq<PacketSocket>, rounds: seq<seq<Reception>>, r: nat)
    returns (at: seq<(nat, nat)>)
    requires r <= |rounds| && forall q | 0 <= q < |rounds| :: |rounds[q]| == |inputs|
    ensures AreReceptions(inputs, rounds, TraceEvents(inputs, rounds[..r]), at)
    ensures HasReceptions(rounds, at, r, 0)
  {
    if r == 0 {
      at := [];
    } else {
      var before := PrefixReceptions(inputs, rounds, r - 1);
      assert rounds[..r][..r - 1] == rounds[..r - 1];
      at := RoundReceptions(inputs, rounds, TraceEvents(inputs, rounds[..r - 1]), before, r - 1, |inputs|);
    }
  }

  /** The events of a run are its receptions: one for every frame that some socket gave in some round,
      with the name of that socket's interface, round by round and socket by socket, and no others. */
  lemma EventsAreReceptions(inputs: seq<PacketSocket>, rounds: seq<seq<Reception>>) returns (at: seq<(nat, nat)>)
    requires forall q | 0 <= q < |rounds| :: |rounds[q]| == |inputs|
    ensures AreReceptions(inputs, rounds, TraceEvents(inputs, rounds), at)
    ensures forall q: nat, i: nat | q < |rounds| && i < |inputs| && rounds[q][i].Received? :: (q, i) in at
  {
    at := PrefixReceptions(inputs, rounds, |rounds|);
    assert rounds[..|rounds|] == rounds;
  }

  /** The frame sent is a copy of what socket `at.1` gave in round `at.0`, and goes elsewhere. */
  predicate IsForwarded(cfg: RelayConfig, rounds: seq<seq<Reception>>, at: (nat, nat), sent: Sent) {
    && at.0 < |rounds| && at.1 < |rounds[at.0]| && at.1 < |cfg.inputs|
    && rounds[at.0][at.1].Received?
    && CopyOf(cfg, Event(cfg.inputs[at.1].ifname, rounds[at.0][at.1].frame, rounds[at.0][at.1].now), sent)
    && sent.output < |cfg.outputs|
    && cfg.outputs[sent.output].ifname != cfg.inputs[at.1].ifname
  }

  ghost predicate IsForwardedFromSome(cfg: RelayConfig, rounds: seq<seq<Reception>>, sent: Sent) {
    exists at: (nat, nat) :: IsForwarded(cfg, rounds, at, sent)
  }

  lemma CopyGoesElsewhere(cfg: RelayConfig, e: Event, sent: Sent)
    requires CopyOf(cfg, e, sent)
    ensures sent.output < |cfg.outputs| && cfg.outputs[sent.output].ifname != e.ingress
  {
  }

  /** Nothing that is received on an interface is ever sent out of it again, in any run. */
  lemma NothingIsSentBack(cfg: RelayConfig, limiter: Option<Bucket>, rounds: seq<seq<Reception>>)
    requires forall q | 0 <= q < |rounds| :: |rounds[q]| == |cfg.inputs|
    ensures var out := Process(cfg, limiter, TraceEvents(cfg.inputs, rounds)).1;
            forall k | 0 <= k < |out| :: IsForwardedFromSome(cfg, rounds, out[k])
  {
    var events := TraceEvents(cfg.inputs, rounds);
    var out := Process(cfg, limiter, events).1;
    var at := EventsAreReceptions(cfg.inputs, rounds);
    SentAreCopies(cfg, limiter, events);
    forall k | 0 <= k < |out|
      ensures IsForwardedFromSome(cfg, rounds, out[k])
    {
      assert CopyOfSome(cfg, events, out[k]);
      var i :| 0 <= i < |events| && CopyOf(cfg, events[i], out[k]);
      assert IsReception(cfg.inputs, rounds, at[i], events[i]);
      CopyGoesElsewhere(cfg, events[i], out[k]);
      assert IsForwarded(cfg, rounds, at[i], out[k]);
    }
  }

  // ---------------------------------------------------------------- rejected traffic

  predicate IsAcceptedEvent(cfg: RelayConfig, e: Event) {
    Accept(cfg.rules, Clip(e.frame)).Some?
  }

  function AcceptedEvents(cfg: RelayConfig, events: seq<Event>): seq<Event> {
    Machine.Filter(e => IsAcceptedEvent(cfg, e), events)
  }

  /** Rejected traffic does not interfere: deleting every marked, malformed or denied packet from any
      trace changes neither the frames sent nor the limiter. */
  lemma RejectedTrafficIsInvisible(cfg: RelayConfig, limiter: Option<Bucket>, events: seq<Event>)
    ensures Process(cfg, limiter, AcceptedEvents(cfg, events)) == Process(cfg, limiter, events)
  {
    var keep := e => IsAcceptedEvent(cfg, e);
    forall i | 0 <= i < |events| && !keep(events[i])
      ensures Machine.Silent(Stepper(cfg), events[i])
    {
      RejectedIsSilent(cfg, events[i]);
    }
    Machine.SilentEventsDeletable(Stepper(cfg), limiter, events, keep);
    assert Machine.Filter(keep, events) == AcceptedEvents(cfg, events) by {
      SameFilter(keep, e => IsAcceptedEvent(cfg, e), events);
    }
  }

  lemma {:induction false} SameFilter(p: Event -> bool, q: Event -> bool, events: seq<Event>)
    requires forall i | 0 <= i < |events| :: p(events[i]) == q(events[i])
    ensures Machine.Filter(p, events) == Machine.Filter(q, events)
    decreases |events|
  {
    if |events| == 0 {
    } else {
      SameFilter(p, q, events[..|events| - 1]);
    }
  }

  lemma RejectedIsSilent(cfg: RelayConfig, e: Event)
    requires !IsAcceptedEvent(cfg, e)
    ensures Machine.Silent(Stepper(cfg), e)
  {
  }

  /** The trace as it comes through the kernel filter. */
  function ThroughFilter(events: seq<Event>): seq<Event> {
    if |events| == 0 then []
    else
      var e := events[|events| - 1];
      ThroughFilter(events[..|events| - 1]) +
      match Delivered(e.frame)
      case Some(frame) => [e.(frame := frame)]
      case None => []
  }

  lemma AcceptedPassesFilter(cfg: RelayConfig, e: Event)
    requires IsAcceptedEvent(cfg, e)
    ensures Keeps(Program(), e.frame) == 262144
  {
    var frame := Clip(e.frame);
    ExtractIff(frame);
    assert frame[0] == e.frame[0] && frame[9] == e.frame[9];
    assert frame[16] == e.frame[16] && frame[19] == e.frame[19];
    ProgramMeaning(e.frame);
  }

  /** An event whose frame the kernel filter lets through. */
  predicate PassesFilter(e: Event) {
    Delivered(e.frame).Some?
  }

  /** What comes through the filter: of each frame that it lets through what it delivers of it, in
      order, and nothing else. */
  lemma {:induction false} ThroughFilterMeaning(events: seq<Event>) returns (at: seq<nat>)
    ensures Machine.AreKept(PassesFilter, events, at) && |at| == |ThroughFilter(events)|
    ensures forall k | 0 <= k < |at| ::
              ThroughFilter(events)[k] == events[at[k]].(frame := Delivered(events[at[k]].frame).value)
    decreases |events|
  {
    if |events| == 0 {
      at := [];
    } else {
      var n := |events| - 1;
      var before := ThroughFilterMeaning(events[..n]);
      Machine.KeptExtend(PassesFilter, events[..n], events[n], before);
      assert events[..n] + [events[n]] == events;
      at := before + if PassesFilter(events[n]) then [n] else [];
    }
  }

  lemma DeliveredFitsTheSame(frame: seq<byte>)
    requires Delivered(frame).Some?
    ensures Clip(Delivered(frame).value) == Clip(frame)
  {
    ProgramMeaning(frame);
  }

  /** An event that the filter drops has no effect, and one that it lets through has the same effect
      as it would have had without the filter. */
  lemma FilteredEvent(cfg: RelayConfig, limiter: Option<Bucket>, e: Event)
    ensures match Delivered(e.frame)
            case Some(frame) => Handle(cfg, limiter, e.(frame := frame)) == Handle(cfg, limiter, e)
            case None => Handle(cfg, limiter, e) == (limiter, [])
  {
    if Delivered(e.frame).Some? {
      DeliveredFitsTheSame(e.frame);
    } else if IsAcceptedEvent(cfg, e) {
      AcceptedPassesFilter(cfg, e);
    }
  }

  /** The kernel filter is invisible: for any trace of frames, the relay sends the same frames with
      it as without it. */
  lemma {:induction false} KernelFilterIsInvisible(cfg: RelayConfig, limiter: Option<Bucket>, events: seq<Event>)
    ensures Process(cfg, limiter, ThroughFilter(events)) == Process(cfg, limiter, events)
    decreases |events|
  {
    if |events| == 0 {
    } else {
      var init, e := events[..|events| - 1], events[|events| - 1];
      KernelFilterIsInvisible(cfg, limiter, init);
      var (l, out) := Process(cfg, limiter, init);
      FilteredEvent(cfg, l, e);
      match Delivered(e.frame) {
        case Some(frame) =>
          Machine.RunSnoc(Stepper(cfg), limiter, ThroughFilter(init), e.(frame := frame));
        case None =>
          assert ThroughFilter(init) + [] == ThroughFilter(init);
          assert out + [] == out;
      }
    }
  }

  // ---------------------------------------------------------------- rate of sending

  /** The times at which a trace asks the limiter. */
  function AskTimes(cfg: RelayConfig, events: seq<Event>): seq<real> {
    if |events| == 0 then []
    else
      var e := events[|events| - 1];
      AskTimes(cfg, events[..|events| - 1]) + if IsAcceptedEvent(cfg, e) then [e.now] else []
  }

  lemma HandleAdmission(cfg: RelayConfig, s: Bucket, e: Event)
    ensures var (l, out) := Handle(cfg, Some(s), e);
            if IsAcceptedEvent(cfg, e)
            then l == Some(s.Next(e.now)) && |out| <= if s.Allows(e.now) then |cfg.outputs| else 0
            else l == Some(s) && out == []
  {
    HandleCopies(cfg, Some(s), e);
  }

  /** What the next event adds to the asking times and to the output. */
  lemma AdmissionStep(cfg: RelayConfig, b: Bucket, init: seq<Event>, e: Event)
    requires var (l, out) := Process(cfg, Some(b), init);
             && l == Some(RateLimit.Run(b, AskTimes(cfg, init)))
             && |out| <= |cfg.outputs| * Count(Decisions(b, AskTimes(cfg, init)))
    ensures var asked := AskTimes(cfg, init) + if IsAcceptedEvent(cfg, e) then [e.now] else [];
            var (l, out) := Process(cfg, Some(b), init + [e]);
            && l == Some(RateLimit.Run(b, asked))
            && |out| <= |cfg.outputs| * Count(Decisions(b, asked))
  {
    var asked := AskTimes(cfg, init);
    Machine.RunSnoc(Stepper(cfg), Some(b), init, e);
    HandleAdmission(cfg, RateLimit.Run(b, asked), e);
    AskOnce(b, asked, e.now, |cfg.outputs|);
    assert asked + [] == asked;
  }

  /** The limiter sees exactly the accepted packets, and each one it admits is sent at most once per
      output. */
  lemma {:induction false} SentByAdmission(cfg: RelayConfig, b: Bucket, events: seq<Event>)
    ensures var (l, out) := Process(cfg, Some(b), events);
            && l == Some(RateLimit.Run(b, AskTimes(cfg, events)))
            && |out| <= |cfg.outputs| * Count(Decisions(b, AskTimes(cfg, events)))
    decreases |events|
  {
    if |events| == 0 {
    } else {
      var init, e := events[..|events| - 1], events[|events| - 1];
      SentByAdmission(cfg, b, init);
      AdmissionStep(cfg, b, init, e);
      assert events == init + [e];
    }
  }

  lemma AskOnce(b: Bucket, asked: seq<real>, now: real, outputs: nat)
    ensures RateLimit.Run(b, asked + [now]) == RateLimit.Run(b, asked).Next(now)
    ensures outputs * Count(Decisions(b, asked + [now]))
            == outputs * Count(Decisions(b, asked)) + if RateLimit.Run(b, asked).Allows(now) then outputs else 0
  {
    var s := RateLimit.Run(b, asked);
    RateLimit.RunConcat(b, asked, [now]);
    SingleCall(s, now);
    CountConcat(Decisions(b, asked), [s.Allows(now)]);
    assert Count([s.Allows(now)]) == if s.Allows(now) then 1 else 0;
  }

  lemma LastAskAllowed(b: Bucket, asked: seq<real>, now: real)
    requires AllTrue(Decisions(b, asked + [now]))
    ensures AllTrue(Decisions(b, asked)) && RateLimit.Run(b, asked).Allows(now)
  {
    RateLimit.RunConcat(b, asked, [now]);
    SingleCall(RateLimit.Run(b, asked), now);
    AllTrueConcat(Decisions(b, asked), RateLimit.Run(b, asked).Allows(now));
  }

  /** An event that the limiter admits, if it is asked at all, has the effect it has without one. */
  lemma AdmittedLikeUnlimited(cfg: RelayConfig, s: Bucket, e: Event)
    requires IsAcceptedEvent(cfg, e) ==> s.Allows(e.now)
    ensures Handle(cfg, Some(s), e).1 == Handle(cfg, None, e).1
    ensures Handle(cfg, None, e).0 == None
  {
  }

  /** A limiter that refuses nothing is invisible: the relay sends the same frames as without it. */
  lemma {:induction false} IdleLimiterIsInvisible(cfg: RelayConfig, b: Bucket, events: seq<Event>)
    requires AllTrue(Decisions(b, AskTimes(cfg, events)))
    ensures Process(cfg, Some(b), events).1 == Process(cfg, None, events).1
    ensures Process(cfg, None, events).0 == None
    decreases |events|
  {
    if |events| == 0 {
    } else {
      var init, e := events[..|events| - 1], events[|events| - 1];
      var asked := AskTimes(cfg, init);
      if IsAcceptedEvent(cfg, e) {
        LastAskAllowed(b, asked, e.now);
      } else {
        assert asked + [] == asked;
      }
      IdleLimiterIsInvisible(cfg, b, init);
      SentByAdmission(cfg, b, init);
      AdmittedLikeUnlimited(cfg, RateLimit.Run(b, asked), e);
    }
  }

  /** So a limiter that starts full costs no frame, in any trace whose accepted packets conform to its
      rate and burst. */
  lemma ConformingTrafficLosesNothing(cfg: RelayConfig, b: Bucket, events: seq<Event>)
    requires b.Valid() && b.tokens == b.burst && Ordered(b.last, Times(events))
    requires Conforming(b.rate, b.burst, AskTimes(cfg, events))
    ensures Process(cfg, Some(b), events).1 == Process(cfg, None, events).1
  {
    AskTimesSpanned(cfg, b.last, events);
    LosslessIffConforming(b, AskTimes(cfg, events));
    IdleLimiterIsInvisible(cfg, b, events);
  }

  function Times(events: seq<Event>): seq<real> {
    seq(|events|, i requires 0 <= i < |events| => events[i].now)
  }

  /** `asked` is ordered and lies within the time that `times` spans. */
  predicate Spanned(start: real, times: seq<real>, asked: seq<real>) {
    && Ordered(start, asked)
    && (|asked| > 0 ==> && |times| > 0
                        && times[0] <= asked[0] && asked[|asked| - 1] <= times[|times| - 1])
  }

  lemma SpannedStep(start: real, times: seq<real>, asked: seq<real>, now: real)
    requires Ordered(start, times + [now]) && Spanned(start, times, asked)
    ensures Spanned(start, times + [now], asked)
    ensures Spanned(start, times + [now], asked + [now])
  {
    OrderedSnoc(start, times, now);
    OrderedSnoc(start, asked, now);
    if |times| > 0 {
      OrderedEnds(start, times);
    }
  }

  /** Asking times are a subsequence of the event times. */
  lemma {:induction false} AskTimesSpanned(cfg: RelayConfig, start: real, events: seq<Event>)
    requires Ordered(start, Times(events))
    ensures Spanned(start, Times(events), AskTimes(cfg, events))
    decreases |events|
  {
    if |events| == 0 {
    } else {
      var init, e := events[..|events| - 1], events[|events| - 1];
      assert Times(events) == Times(init) + [e.now];
      OrderedSnoc(start, Times(init), e.now);
      AskTimesSpanned(cfg, start, init);
      SpannedStep(start, Times(init), AskTimes(cfg, init), e.now);
      assert AskTimes(cfg, init) + [] == AskTimes(cfg, init);
    }
  }

  lemma AllowanceWidens(b: Bucket, t0: real, s0: real, s1: real, t1: real)
    requires b.Valid() && t0 <= s0 <= s1 <= t1
    ensures Allowance(b.rate, b.burst, s0, s1) <= Allowance(b.rate, b.burst, t0, t1)
  {
    assert b.rate * (s1 - s0) <= b.rate * (t1 - t0) by {
      assert b.rate * ((t1 - t0) - (s1 - s0)) >= 0.0;
    }
  }

  lemma AdmittedInSpan(b: Bucket, times: seq<real>, asked: seq<real>)
    requires b.Valid() && |times| > 0 && Ordered(b.last, times) && Spanned(b.last, times, asked)
    ensures Count(Decisions(b, asked)) as real <= Allowance(b.rate, b.burst, times[0], times[|times| - 1])
  {
    OrderedEnds(b.last, times);
    var t0, t1 := times[0], times[|times| - 1];
    AllowanceWidens(b, t0, t0, t0, t1);
    if |asked| > 0 {
      OrderedEnds(b.last, asked);
      WindowFromState(b, asked);
      AllowanceWidens(b, t0, asked[0], asked[|asked| - 1], t1);
    }
  }

  /** The positions of the events that a limiter admits. */
  function Admitted(cfg: RelayConfig, b: Bucket, events: seq<Event>): seq<nat> {
    if |events| == 0 then []
    else
      var n := |events| - 1;
      var admits := IsAcceptedEvent(cfg, events[n])
                    && RateLimit.Run(b, AskTimes(cfg, events[..n])).Allows(events[n].now);
      Admitted(cfg, b, events[..n]) + if admits then [n] else []
  }

  /** Positions in a trace, in order. */
  predicate ArePositions(picked: seq<nat>, events: nat) {
    && (forall k | 0 <= k < |picked| :: picked[k] < events)
    && (forall k, l | 0 <= k < l < |picked| :: picked[k] < picked[l])
  }

  /** The events at these positions. */
  function EventsAt(events: seq<Event>, picked: seq<nat>): seq<Event>
    requires ArePositions(picked, |events|)
  {
    seq(|picked|, k requires 0 <= k < |picked| => events[picked[k]])
  }

  lemma PositionsExtend(picked: seq<nat>, init: seq<Event>, e: Event)
    requires ArePositions(picked, |init|)
    ensures ArePositions(picked, |init + [e]|) && ArePositions(picked + [|init|], |init + [e]|)
    ensures EventsAt(init + [e], picked) == EventsAt(init, picked)
    ensures EventsAt(init + [e], picked + [|init|]) == EventsAt(init, picked) + [e]
  {
  }

  /** The limited relay sends what the unlimited one sends for the events admitted. */
  predicate SendsAdmitted(cfg: RelayConfig, b: Bucket, events: seq<Event>, picked: seq<nat>) {
    && ArePositions(picked, |events|)
    && Process(cfg, Some(b), events).1 == Process(cfg, None, EventsAt(events, picked)).1
    && Process(cfg, None, EventsAt(events, picked)).0 == None
    && |picked| == Count(Decisions(b, AskTimes(cfg, events)))
  }

  lemma AdmittedStep(cfg: RelayConfig, b: Bucket, init: seq<Event>, e: Event, picked: seq<nat>)
    requires SendsAdmitted(cfg, b, init, picked)
    ensures var admits := IsAcceptedEvent(cfg, e) && RateLimit.Run(b, AskTimes(cfg, init)).Allows(e.now);
            SendsAdmitted(cfg, b, init + [e], picked + if admits then [|init|] else [])
  {
    var asked := AskTimes(cfg, init);
    var s := RateLimit.Run(b, asked);
    assert (init + [e])[..|init|] == init;
    SentByAdmission(cfg, b, init);
    Machine.RunSnoc(Stepper(cfg), Some(b), init, e);
    PositionsExtend(picked, init, e);
    AskOnce(b, asked, e.now, 1);
    assert asked + [] == asked;
    if IsAcceptedEvent(cfg, e) && s.Allows(e.now) {
      AdmittedLikeUnlimited(cfg, s, e);
      Machine.RunSnoc(Stepper(cfg), None, EventsAt(init, picked), e);
    } else {
      assert picked + [] == picked;
      HandleAdmission(cfg, s, e);
      var out := Process(cfg, Some(b), init).1;
      assert out + [] == out;
    }
  }

  lemma {:induction false} AdmittedAreSent(cfg: RelayConfig, b: Bucket, events: seq<Event>)
    ensures SendsAdmitted(cfg, b, events, Admitted(cfg, b, events))
    decreases |events|
  {
    if |events| == 0 {
    } else {
      var init, e := events[..|events| - 1], events[|events| - 1];
      AdmittedAreSent(cfg, b, init);
      AdmittedStep(cfg, b, init, e, Admitted(cfg, b, init));
      assert init + [e] == events;
    }
  }

  lemma OneEventMore(cfg: RelayConfig, events: seq<Event>, n: nat)
    requires n < |events|
    ensures |Process(cfg, None, events[..n + 1]).1| <= |Process(cfg, None, events[..n]).1| + |cfg.outputs|
  {
    var init, e := events[..n], events[n];
    assert events[..n + 1] == init + [e];
    Machine.RunSnoc(Stepper(cfg), None, init, e);
    HandleCopies(cfg, Process(cfg, None, init).0, e);
  }

  lemma OneTimesMore(a: nat, b: nat)
    ensures a * (b + 1) == a * b + a
  {
  }

  lemma {:induction false} SentPerPrefix(cfg: RelayConfig, events: seq<Event>, n: nat)
    requires n <= |events|
    ensures |Process(cfg, None, events[..n]).1| <= |cfg.outputs| * n
  {
    if n == 0 {
    } else {
      SentPerPrefix(cfg, events, n - 1);
      OneEventMore(cfg, events, n - 1);
      OneTimesMore(|cfg.outputs|, n - 1);
    }
  }

  /** Without a limiter, every event is sent at most once per output. */
  lemma SentPerEvent(cfg: RelayConfig, events: seq<Event>)
    ensures |Process(cfg, None, events).1| <= |cfg.outputs| * |events|
  {
    SentPerPrefix(cfg, events, |events|);
    assert events[..|events|] == events;
  }

  /** What a relay sends for a window of events from a state of its limiter: the frames of the admitted
      events and no others, and not more of them than the limiter allows in the time of the window. */
  predicate SendsWithinAllowance(cfg: RelayConfig, s: Bucket, window: seq<Event>, admitted: seq<nat>)
    requires |window| > 0
  {
    && ArePositions(admitted, |window|)
    && Process(cfg, Some(s), window).1 == Process(cfg, None, EventsAt(window, admitted)).1
    && |Process(cfg, Some(s), window).1| <= |cfg.outputs| * |admitted|
    && |admitted| as real <= Allowance(s.rate, s.burst, window[0].now, window[|window| - 1].now)
  }

  lemma SentFromState(cfg: RelayConfig, s: Bucket, window: seq<Event>) returns (admitted: seq<nat>)
    requires s.Valid() && |window| > 0 && Ordered(s.last, Times(window))
    ensures SendsWithinAllowance(cfg, s, window, admitted)
  {
    admitted := Admitted(cfg, s, window);
    AdmittedAreSent(cfg, s, window);
    SentPerEvent(cfg, EventsAt(window, admitted));
    AskTimesSpanned(cfg, s.last, window);
    AdmittedInSpan(s, Times(window), AskTimes(cfg, window));
  }

  /** The rate limit bounds what leaves the relay: in any trace with a clock that does not go back,
      what is sent for any window of it is what a relay without a limiter sends for some of its events,
      each at most once per output, and those are not more than the limiter allows in the time of the
      window. */
  lemma SentInWindow(cfg: RelayConfig, b: Bucket, before: seq<Event>, window: seq<Event>)
    returns (s: Bucket, admitted: seq<nat>)
    requires b.Valid() && |window| > 0 && Ordered(b.last, Times(before) + Times(window))
    ensures Process(cfg, Some(b), before).0 == Some(s) && s.rate == b.rate && s.burst == b.burst
    ensures SendsWithinAllowance(cfg, s, window, admitted)
  {
    SentByAdmission(cfg, b, before);
    LimiterAtWindow(cfg, b, before, window);
    s := RateLimit.Run(b, AskTimes(cfg, before));
    admitted := SentFromState(cfg, s, window);
  }

  lemma LimiterAtWindow(cfg: RelayConfig, b: Bucket, before: seq<Event>, window: seq<Event>)
    requires b.Valid() && |window| > 0 && Ordered(b.last, Times(before) + Times(window))
    ensures var s := RateLimit.Run(b, AskTimes(cfg, before));
            s.Valid() && s.rate == b.rate && s.burst == b.burst && Ordered(s.last, Times(window))
  {
    var asked := AskTimes(cfg, before);
    OrderedSplit(b.last, Times(before), Times(window));
    AskTimesSpanned(cfg, b.last, before);
    TokensStayInBounds(b, asked);
    if |before| > 0 {
      OrderedEnds(b.last, Times(before));
    }
    OrderedFromEarlier(if |before| == 0 then b.last else before[|before| - 1].now,
                       RateLimit.Run(b, asked).last, Times(window));
  }

  lemma OrderedFromEarlier(start: real, earlier: real, times: seq<real>)
    requires Ordered(start, times) && earlier <= start
    ensures Ordered(earlier, times)
  {
  }
}
