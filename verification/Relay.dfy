/** The relay loop of one instance (src/relay.rs). Receiving is an input trace with the clock reading
    at each frame, sending an output trace; a failed send is not retried and changes nothing else. */
module Relay {
  import opened Net
  import opened Config
  import opened Filter
  import opened Packet
  import opened Nat
  import opened RateLimit
  import opened Socket
  import Machine

  const BUFFER_SIZE: nat := 65536

  /** What the loop uses of a packet socket. */
  datatype PacketSocket = PacketSocket(ifname: string, broadcastAddrs: seq<Ipv4Addr>)

  datatype RelayConfig = RelayConfig(
    inputs: seq<PacketSocket>,
    outputs: seq<PacketSocket>,
    rules: seq<Rule>)

  /** A frame handed to output socket `output`. */
  datatype Sent = Sent(output: nat, mac: seq<byte>, bytes: seq<byte>)

  /** A frame received on the interface `ingress`, and the time at which it is processed. */
  datatype Event = Event(ingress: string, frame: seq<byte>, now: real)

  // ---------------------------------------------------------------- decisions per output

  predicate ShouldRelayTo(dst: Ipv4Addr, ingress: string, out: PacketSocket) {
    && ingress != out.ifname
    && (dst.IsMulticast() || dst == LIMITED_BROADCAST || dst in out.broadcastAddrs)
  }

  function NatRewriteTarget(dst: Ipv4Addr, broadcasts: seq<Ipv4Addr>): Ipv4Addr {
    if dst in broadcasts then dst
    else if |broadcasts| > 0 then broadcasts[0]
    else LIMITED_BROADCAST
  }

  // ---------------------------------------------------------------- one packet, on values

  /** The packet's information, if it passes the loop check, the parser and the rules. */
  function Accept(rules: seq<Rule>, frame: seq<byte>): Option<PacketInfo> {
    if IsAlreadyRelayed(frame) then None
    else
      match ExtractPacketInfo(frame)
      case Some(info) => if ShouldRelay(rules, info) then Some(info) else None
      case None => None
  }

  /** What one output gets of an accepted packet. */
  function Copy(rules: seq<Rule>, ingress: string, frame: seq<byte>, info: PacketInfo, out: PacketSocket)
    : Option<seq<byte>>
    requires GetNatRule(rules, info).Some?
  {
    if !ShouldRelayTo(info.dstIp, ingress, out) then None
    else
      var (outcome, bytes) := Rewrite(frame, GetNatRule(rules, info).value.natOptions,
                                      NatRewriteTarget(info.dstIp, out.broadcastAddrs));
      if outcome == Rewritten then Some(bytes) else None
  }

  /** What each output gets of an accepted packet. */
  function Copies(cfg: RelayConfig, ingress: string, frame: seq<byte>, info: PacketInfo): seq<Option<seq<byte>>>
    requires GetNatRule(cfg.rules, info).Some?
  {
    seq(|cfg.outputs|,
        i requires 0 <= i < |cfg.outputs| => Copy(cfg.rules, ingress, frame, info, cfg.outputs[i]))
  }

  /** What is handed to output `i`. */
  function SentTo(i: nat, copy: Option<seq<byte>>): seq<Sent> {
    match copy
    case Some(bytes) => [Sent(i, DestMac(bytes), bytes)]
    case None => []
  }

  /** The frames handed to the outputs that get a copy, in order. */
  function SendAll(copies: seq<Option<seq<byte>>>): seq<Sent> {
    if |copies| == 0 then []
    else
      var n := |copies| - 1;
      SendAll(copies[..n]) + SentTo(n, copies[n])
  }

  lemma SendOneMore(copies: seq<Option<seq<byte>>>, i: nat)
    requires i < |copies|
    ensures SendAll(copies[..i + 1]) == SendAll(copies[..i]) + SentTo(i, copies[i])
  {
    assert copies[..i + 1][..i] == copies[..i];
  }

  /** A frame as it fits the receive buffer. */
  function Clip(frame: seq<byte>): (r: seq<byte>)
    ensures |r| <= BUFFER_SIZE
  {
    if |frame| <= BUFFER_SIZE then frame else frame[..BUFFER_SIZE]
  }

  /** The buffer is sized so that no IPv4 packet, whose length is at most 65535, is cut. */
  lemma PacketsAreWhole(frame: seq<byte>)
    ensures Clip(frame) <= frame
    ensures |frame| <= 65535 ==> Clip(frame) == frame
  {
  }

  predicate Permitted(limiter: Option<Bucket>, now: real) {
    limiter.Some? ==> limiter.value.Allows(now)
  }

  /** The effect of one received frame: the limiter afterwards and the frames sent. Only a packet that
      is accepted reaches the limiter. */
  function Handle(cfg: RelayConfig, limiter: Option<Bucket>, e: Event): (Option<Bucket>, seq<Sent>)
  {
    var frame := Clip(e.frame);
    match Accept(cfg.rules, frame)
    case None => (limiter, [])
    case Some(info) =>
      var next := if limiter.Some? then Some(limiter.value.Next(e.now)) else None;
      if !Permitted(limiter, e.now) then (next, [])
      else (next, SendAll(Copies(cfg, e.ingress, frame, info)))
  }

  function Stepper(cfg: RelayConfig): Machine.Step<Option<Bucket>, Event, Sent> {
    (limiter, e) => Handle(cfg, limiter, e)
  }

  /** The effect of a whole trace, one packet after the other. */
  function Process(cfg: RelayConfig, limiter: Option<Bucket>, events: seq<Event>): (Option<Bucket>, seq<Sent>) {
    Machine.Run(Stepper(cfg), limiter, events)
  }

  /** The limiter and the output trace after more events. */
  function Continue(cfg: RelayConfig, at: (Option<Bucket>, seq<Sent>), events: seq<Event>)
    : (Option<Bucket>, seq<Sent>)
  {
    Machine.Resume(Stepper(cfg), at, events)
  }

  // ---------------------------------------------------------------- the loop

  /** What reading one input socket gives in one round of select(). */
  datatype Reception = NotReady | RecvError | Received(frame: seq<byte>, now: real)

  function ReceptionEvents(socket: PacketSocket, reception: Reception): seq<Event> {
    match reception
    case Received(frame, now) => [Event(socket.ifname, frame, now)]
    case _ => []
  }

  /** The frames of the first `n` sockets of a round. */
  function RoundEvents(inputs: seq<PacketSocket>, round: seq<Reception>, n: nat): seq<Event>
    requires n <= |round| == |inputs|
  {
    if n == 0 then [] else RoundEvents(inputs, round, n - 1) + ReceptionEvents(inputs[n - 1], round[n - 1])
  }

  function TraceEvents(inputs: seq<PacketSocket>, rounds: seq<seq<Reception>>): seq<Event>
    requires forall i | 0 <= i < |rounds| :: |rounds[i]| == |inputs|
  {
    if |rounds| == 0 then []
    else
      TraceEvents(inputs, rounds[..|rounds| - 1])
      + RoundEvents(inputs, rounds[|rounds| - 1], |rounds[|rounds| - 1]|)
  }

  /** The limiter and the output trace after the first `n` sockets of a round, one after the other. */
  function AfterSockets(cfg: RelayConfig, at: (Option<Bucket>, seq<Sent>), inputs: seq<PacketSocket>,
                        round: seq<Reception>, n: nat): (Option<Bucket>, seq<Sent>)
    requires n <= |round| == |inputs|
  {
    if n == 0 then at
    else Continue(cfg, AfterSockets(cfg, at, inputs, round, n - 1), ReceptionEvents(inputs[n - 1], round[n - 1]))
  }

  /** They have the effect of the frames they give. */
  lemma {:induction false} SocketsAreEvents(
      cfg: RelayConfig, at: (Option<Bucket>, seq<Sent>), inputs: seq<PacketSocket>, round: seq<Reception>, n: nat)
    requires n <= |round| == |inputs|
    ensures AfterSockets(cfg, at, inputs, round, n) == Continue(cfg, at, RoundEvents(inputs, round, n))
  {
    if n == 0 {
      Machine.ResumeNone(Stepper(cfg), at);
    } else {
      SocketsAreEvents(cfg, at, inputs, round, n - 1);
      Machine.ResumeConcat(Stepper(cfg), at, RoundEvents(inputs, round, n - 1),
                           ReceptionEvents(inputs[n - 1], round[n - 1]));
    }
  }

  class Relay {
    const inputSockets: seq<PacketSocket>
    const outputSockets: seq<PacketSocket>
    const rules: seq<Rule>
    const rateLimiter: RateLimiter?
    var sent: seq<Sent>

    constructor (inputs: seq<PacketSocket>, outputs: seq<PacketSocket>, rules: seq<Rule>, limiter: RateLimiter?)
      ensures Config() == RelayConfig(inputs, outputs, rules)
      ensures rateLimiter == limiter && sent == []
    {
      inputSockets := inputs;
      outputSockets := outputs;
      this.rules := rules;
      rateLimiter := limiter;
      sent := [];
    }

    function Config(): RelayConfig {
      RelayConfig(inputSockets, outputSockets, rules)
    }

    ghost function Limiter(): Option<Bucket>
      reads rateLimiter
    {
      if rateLimiter == null then None else Some(rateLimiter.State())
    }

    /** Read a frame into the buffer; whatever else the buffer holds stays there. */
    static method Recv(frame: seq<byte>, buf: array<byte>) returns (len: nat)
      modifies buf
      ensures len <= buf.Length
      ensures buf.Length == BUFFER_SIZE ==> buf[..len] == Clip(frame)
    {
      len := if |frame| <= buf.Length then |frame| else buf.Length;
      forall i | 0 <= i < len {
        buf[i] := frame[i];
      }
    }

    static method CopyFromSlice(dst: array<byte>, src: array<byte>, len: nat)
      requires dst != src && len <= dst.Length && len <= src.Length
      modifies dst
      ensures dst[..len] == src[..len]
    {
      forall i | 0 <= i < len {
        dst[i] := src[i];
      }
    }

    method Send(output: nat, data: seq<byte>)
      modifies this`sent
      ensures sent == old(sent) + [Sent(output, DestMac(data), data)]
    {
      sent := sent + [Sent(output, DestMac(data), data)];
    }

    /** Rewrite a copy of the packet recvBuf[..len] for one output in the send buffer and send it, if
        the packet should go there. Nothing is asked of the former contents of the send buffer. */
    method RelayToOutput(i: nat, ingress: string, recvBuf: array<byte>, len: nat, sendBuf: array<byte>,
                         info: PacketInfo, natRule: Rule)
      requires recvBuf != sendBuf && len <= recvBuf.Length && len <= sendBuf.Length
      requires i < |outputSockets| && GetNatRule(rules, info) == Some(natRule)
      modifies this`sent, sendBuf
      ensures sent == old(sent) + SentTo(i, Copy(rules, ingress, old(recvBuf[..len]), info, outputSockets[i]))
    {
      assert sent + [] == sent;
      var out := outputSockets[i];
      if !ShouldRelayTo(info.dstIp, ingress, out) {
        return;
      }
      CopyFromSlice(sendBuf, recvBuf, len);
      var destBroadcast := NatRewriteTarget(info.dstIp, out.broadcastAddrs);
      var outcome := ApplyNat(sendBuf, len, natRule.natOptions, destBroadcast);
      if outcome != Rewritten {
        return;
      }
      Send(i, sendBuf[..len]);
    }

    /** Relay the packet recvBuf[..len] to every output through the one send buffer, leaving the
        received packet as it is. */
    method RelayToOutputs(ingress: string, recvBuf: array<byte>, len: nat, sendBuf: array<byte>,
                          info: PacketInfo, natRule: Rule)
      requires recvBuf != sendBuf && len <= recvBuf.Length && len <= sendBuf.Length
      requires GetNatRule(rules, info) == Some(natRule)
      modifies this`sent, sendBuf
      ensures recvBuf[..] == old(recvBuf[..])
      ensures sent == old(sent) + SendAll(Copies(Config(), ingress, old(recvBuf[..len]), info))
    {
      ghost var copies := Copies(Config(), ingress, recvBuf[..len], info);
      for i := 0 to |outputSockets|
        invariant recvBuf[..] == old(recvBuf[..])
        invariant sent == old(sent) + SendAll(copies[..i])
      {
        SendOneMore(copies, i);
        assert recvBuf[..len] == recvBuf[..][..len];
        RelayToOutput(i, ingress, recvBuf, len, sendBuf, info, natRule);
      }
      assert copies[..|copies|] == copies;
    }

    /** One received packet: loop check, parser, rules, rate limit, then every output. */
    method HandlePacket(ingress: string, recvBuf: array<byte>, len: nat, sendBuf: array<byte>, now: real,
                        ghost frame: seq<byte>)
      requires recvBuf != sendBuf && recvBuf.Length == sendBuf.Length == BUFFER_SIZE && len <= BUFFER_SIZE
      requires recvBuf[..len] == Clip(frame)
      modifies this`sent, sendBuf, rateLimiter
      ensures var (after, more) := Handle(Config(), old(Limiter()), Event(ingress, frame, now));
              Limiter() == after && sent == old(sent) + more
    {
      assert sent + [] == sent;
      if IsAlreadyRelayed(recvBuf[..len]) {
        return;
      }
      var extracted := ExtractPacketInfo(recvBuf[..len]);
      if extracted.None? {
        return;
      }
      var info := extracted.value;
      if !ShouldRelay(rules, info) {
        return;
      }
      if rateLimiter != null {
        var allowed := rateLimiter.Allow(now);
        if !allowed {
          return;
        }
      }
      RelayedIffDecidedByAllow(rules, info);
      var natRule := GetNatRule(rules, info).value;
      RelayToOutputs(ingress, recvBuf, len, sendBuf, info, natRule);
    }

    /** The state that the loop carries from packet to packet. */
    ghost function Progress(): (Option<Bucket>, seq<Sent>)
      reads this`sent, rateLimiter
    {
      (Limiter(), sent)
    }

    /** Read one socket and relay what it gives. */
    method ServeSocket(input: nat, reception: Reception, recvBuf: array<byte>, sendBuf: array<byte>)
      requires input < |inputSockets|
      requires recvBuf != sendBuf && recvBuf.Length == sendBuf.Length == BUFFER_SIZE
      modifies this`sent, rateLimiter, recvBuf, sendBuf
      ensures Progress()
              == Continue(Config(), old(Progress()), ReceptionEvents(inputSockets[input], reception))
    {
      Machine.ResumeNone(Stepper(Config()), Progress());
      if reception.Received? {
        var ingress := inputSockets[input].ifname;
        ghost var e := Event(ingress, reception.frame, reception.now);
        Machine.ResumeOne(Stepper(Config()), Progress(), e);
        var len := Recv(reception.frame, recvBuf);
        HandlePacket(ingress, recvBuf, len, sendBuf, reception.now, reception.frame);
      }
    }

    /** One round of select(): every input socket that is ready is read once, in order. */
    method ServeRound(round: seq<Reception>, recvBuf: array<byte>, sendBuf: array<byte>)
      requires |round| == |inputSockets|
      requires recvBuf != sendBuf && recvBuf.Length == sendBuf.Length == BUFFER_SIZE
      modifies this`sent, rateLimiter, recvBuf, sendBuf
      ensures Progress() == Continue(Config(), old(Progress()), RoundEvents(inputSockets, round, |round|))
    {
      ghost var cfg, start := Config(), Progress();
      for i := 0 to |inputSockets|
        invariant Progress() == AfterSockets(cfg, start, inputSockets, round, i)
      {
        ServeSocket(i, round[i], recvBuf, sendBuf);
      }
      SocketsAreEvents(cfg, start, inputSockets, round, |round|);
    }

    /** The relay loop over a finite number of rounds. However often the two buffers are reused, the
        effect is that of handling one packet value after another. */
    method Run(rounds: seq<seq<Reception>>)
      requires forall i | 0 <= i < |rounds| :: |rounds[i]| == |inputSockets|
      modifies this`sent, rateLimiter
      ensures Progress() == Continue(Config(), old(Progress()), TraceEvents(inputSockets, rounds))
    {
      var recvBuf, sendBuf := new byte[BUFFER_SIZE](_ => 0), new byte[BUFFER_SIZE](_ => 0);
      ghost var cfg, start := Config(), Progress();
      Machine.ResumeNone(Stepper(cfg), start);
      for r := 0 to |rounds|
        invariant Progress() == Continue(cfg, start, TraceEvents(inputSockets, rounds[..r]))
      {
        assert rounds[..r + 1][..r] == rounds[..r];
        Machine.ResumeConcat(Stepper(cfg), start, TraceEvents(inputSockets, rounds[..r]),
                             RoundEvents(inputSockets, rounds[r], |rounds[r]|));
        ServeRound(rounds[r], recvBuf, sendBuf);
      }
      assert rounds[..|rounds|] == rounds;
    }
  }
}
