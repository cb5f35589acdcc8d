/** Any number of relay instances on shared segments. A frame put on a segment reaches every input
    socket attached to it, those of its sender included, in any order and after any delay; it may be
    lost, and everything but its header may be damaged. */
module Network {
  import opened Net
  import opened Packet
  import opened RateLimit
  import opened Relay
  import opened RelayProofs

  /** An instance and the segments that its sockets are attached to. */
  datatype Node = Node(cfg: RelayConfig, inputSegments: seq<nat>, outputSegments: seq<nat>) {
    predicate Valid() {
      |inputSegments| == |cfg.inputs| && |outputSegments| == |cfg.outputs|
    }
  }

  /** A frame on its way to one input socket. The last two fields are for reasoning only: the host
      frame that it stems from and whether a relay has sent it. */
  datatype Delivery = Delivery(node: nat, input: nat, bytes: seq<byte>, frame: nat, relayed: bool)

  /** Instance `node` has relayed host frame `frame` from `input` to `output`. */
  datatype Relaying = Relaying(frame: nat, node: nat, input: nat, output: nat)

  datatype State = State(
    pending: seq<Delivery>,
    limiters: seq<Option<Bucket>>,
    hostFrames: nat,
    log: seq<Relaying>)

  datatype Action =
    | HostSend(segment: nat, bytes: seq<byte>)
    | Deliver(index: nat, received: seq<byte>, now: real)
    | Lose(index: nat)

  predicate ValidNet(net: seq<Node>) {
    forall n | 0 <= n < |net| :: net[n].Valid()
  }

  predicate IsInput(net: seq<Node>, node: nat, input: nat) {
    node < |net| && input < |net[node].inputSegments|
  }

  // ---------------------------------------------------------------- steps

  /** Deliveries of a frame to those of the first `m` inputs of a node that are on the segment. */
  function ToInputs(segments: seq<nat>, segment: nat, d: Delivery, m: nat): seq<Delivery>
    requires m <= |segments|
  {
    if m == 0 then []
    else
      ToInputs(segments, segment, d, m - 1)
      + if segments[m - 1] == segment then [d.(input := m - 1)] else []
  }

  /** Deliveries of a frame to every input socket on the segment, among the first `n` nodes. */
  function ToSegment(net: seq<Node>, segment: nat, d: Delivery, n: nat): seq<Delivery>
    requires n <= |net|
  {
    if n == 0 then []
    else
      var segments := net[n - 1].inputSegments;
      ToSegment(net, segment, d, n - 1) + ToInputs(segments, segment, d.(node := n - 1), |segments|)
  }

  function OnSegment(net: seq<Node>, segment: nat, bytes: seq<byte>, frame: nat, relayed: bool): seq<Delivery> {
    ToSegment(net, segment, Delivery(0, 0, bytes, frame, relayed), |net|)
  }

  /** The frames that a relay has sent, on the segments of its outputs. */
  function Echoes(net: seq<Node>, segments: seq<nat>, frame: nat, sent: seq<Sent>): seq<Delivery>
    requires forall k | 0 <= k < |sent| :: sent[k].output < |segments|
  {
    if |sent| == 0 then []
    else
      var last := sent[|sent| - 1];
      Echoes(net, segments, frame, sent[..|sent| - 1])
      + OnSegment(net, segments[last.output], last.bytes, frame, true)
  }

  function Relayings(d: Delivery, sent: seq<Sent>): seq<Relaying> {
    seq(|sent|, k requires 0 <= k < |sent| => Relaying(d.frame, d.node, d.input, sent[k].output))
  }

  function Remove<T>(s: seq<T>, i: nat): seq<T>
    requires i < |s|
  {
    s[..i] + s[i + 1..]
  }

  /** Segments preserve the header of a frame: its first 20 bytes and as many as it declares. */
  predicate HeaderPreserved(sent: seq<byte>, received: seq<byte>) {
    var hl := ValidateIpv4Header(sent);
    hl.Some? ==> hl.value <= |received| && received[..20] == sent[..20]
  }

  predicate ValidState(net: seq<Node>, s: State) {
    && |s.limiters| == |net|
    && forall i | 0 <= i < |s.pending| :: IsInput(net, s.pending[i].node, s.pending[i].input)
  }

  predicate Enabled(net: seq<Node>, s: State, a: Action) {
    match a
    case HostSend(_, _) => true
    case Deliver(i, received, _) => i < |s.pending| && HeaderPreserved(s.pending[i].bytes, received)
    case Lose(i) => i < |s.pending|
  }

  /** What the instance does with the i-th pending frame. */
  function Outcome(net: seq<Node>, s: State, i: nat, received: seq<byte>, now: real)
    : (Option<Bucket>, seq<Sent>)
    requires ValidNet(net) && ValidState(net, s) && i < |s.pending|
  {
    var d := s.pending[i];
    var cfg := net[d.node].cfg;
    Handle(cfg, s.limiters[d.node], Event(cfg.inputs[d.input].ifname, received, now))
  }

  /** The state after the i-th pending frame has been handled with the given outcome. */
  function Handled(net: seq<Node>, s: State, i: nat, limiter: Option<Bucket>, sent: seq<Sent>): State
    requires ValidNet(net) && ValidState(net, s) && i < |s.pending|
    requires forall k | 0 <= k < |sent| :: sent[k].output < |net[s.pending[i].node].outputSegments|
  {
    var d := s.pending[i];
    State(Remove(s.pending, i) + Echoes(net, net[d.node].outputSegments, d.frame, sent),
          s.limiters[d.node := limiter],
          s.hostFrames,
          s.log + Relayings(d, sent))
  }

  /** A delivery of this frame to an input socket of one of the first `n` nodes. */
  predicate IsListener(net: seq<Node>, d: Delivery, e: Delivery, n: nat) {
    && e.node < n <= |net| && e.input < |net[e.node].inputSegments|
    && e.bytes == d.bytes && e.frame == d.frame && e.relayed == d.relayed
  }

  /** Deliveries in the order of their input sockets. */
  predicate Before(d: Delivery, e: Delivery) {
    d.node < e.node || (d.node == e.node && d.input < e.input)
  }

  /** Deliveries of frame `d`, in order, to input sockets of one of the first `n` nodes. */
  predicate AreListeners(net: seq<Node>, d: Delivery, ds: seq<Delivery>, n: nat) {
    && (forall i | 0 <= i < |ds| :: IsListener(net, d, ds[i], n))
    && (forall i, j | 0 <= i < j < |ds| :: Before(ds[i], ds[j]))
  }

  lemma ListenersExtend(net: seq<Node>, d: Delivery, ds: seq<Delivery>, es: seq<Delivery>, n: nat)
    requires n < |net| && AreListeners(net, d, ds, n)
    requires AreInputs(d.(node := n), es, |net[n].inputSegments|)
    ensures AreListeners(net, d, ds + es, n + 1)
  {
    assert forall i | 0 <= i < |ds| :: IsListener(net, d, ds[i], n) ==> IsListener(net, d, ds[i], n + 1);
  }

  /** Deliveries that differ from `d` in their input only, in order. */
  predicate AreInputs(d: Delivery, ds: seq<Delivery>, m: nat) {
    && (forall i | 0 <= i < |ds| :: ds[i].input < m && ds[i] == d.(input := ds[i].input))
    && (forall i, j | 0 <= i < j < |ds| :: ds[i].input < ds[j].input)
  }

  lemma InputsExtend(d: Delivery, ds: seq<Delivery>, m: nat)
    requires AreInputs(d, ds, m)
    ensures AreInputs(d, ds, m + 1) && AreInputs(d, ds + [d.(input := m)], m + 1)
  {
  }

  lemma {:induction false} InputListeners(segments: seq<nat>, segment: nat, d: Delivery, m: nat)
    requires m <= |segments|
    ensures AreInputs(d, ToInputs(segments, segment, d, m), m)
  {
    if m == 0 {
    } else {
      var init := ToInputs(segments, segment, d, m - 1);
      InputListeners(segments, segment, d, m - 1);
      InputsExtend(d, init, m - 1);
      assert init + [] == init;
    }
  }

  /** A frame reaches each input socket at most once. */
  lemma {:induction false} SegmentListeners(net: seq<Node>, segment: nat, d: Delivery, n: nat)
    requires n <= |net|
    ensures AreListeners(net, d, ToSegment(net, segment, d, n), n)
  {
    if n == 0 {
    } else {
      var segments := net[n - 1].inputSegments;
      var init := ToSegment(net, segment, d, n - 1);
      SegmentListeners(net, segment, d, n - 1);
      InputListeners(segments, segment, d.(node := n - 1), |segments|);
      ListenersExtend(net, d, init, ToInputs(segments, segment, d.(node := n - 1), |segments|), n - 1);
    }
  }

  lemma {:induction false} InputsReached(segments: seq<nat>, segment: nat, d: Delivery, m: nat, input: nat)
    requires m <= |segments|
    ensures d.(input := input) in ToInputs(segments, segment, d, m)
            <==> input < m && segments[input] == segment
  {
    if m == 0 {
    } else {
      InputsReached(segments, segment, d, m - 1, input);
      assert d.(input := m - 1).input == m - 1;
    }
  }

  lemma OnlyThatNode(segments: seq<nat>, segment: nat, d: Delivery, x: Delivery)
    requires x in ToInputs(segments, segment, d, |segments|)
    ensures x.node == d.node
  {
    InputListeners(segments, segment, d, |segments|);
  }

  /** A frame put on a segment is delivered to an input socket exactly when that is attached to it. */
  lemma {:induction false} SegmentReaches(net: seq<Node>, segment: nat, d: Delivery, n: nat, node: nat, input: nat)
    requires n <= |net|
    ensures d.(node := node, input := input) in ToSegment(net, segment, d, n)
            <==> && node < n && input < |net[node].inputSegments|
                 && net[node].inputSegments[input] == segment
  {
    if n == 0 {
    } else {
      var segments, last := net[n - 1].inputSegments, d.(node := n - 1);
      var x := d.(node := node, input := input);
      SegmentReaches(net, segment, d, n - 1, node, input);
      if node == n - 1 {
        InputsReached(segments, segment, last, |segments|, input);
        assert x == last.(input := input);
      } else if x in ToInputs(segments, segment, last, |segments|) {
        OnlyThatNode(segments, segment, last, x);
        assert false;
      }
    }
  }

  predicate Attached(net: seq<Node>, d: Delivery, segment: nat) {
    IsInput(net, d.node, d.input) && net[d.node].inputSegments[d.input] == segment
  }

  lemma OnSegmentAttached(net: seq<Node>, segment: nat, d: Delivery)
    ensures forall i | 0 <= i < |ToSegment(net, segment, d, |net|)| ::
              Attached(net, ToSegment(net, segment, d, |net|)[i], segment)
  {
    var ds := ToSegment(net, segment, d, |net|);
    SegmentListeners(net, segment, d, |net|);
    forall i | 0 <= i < |ds|
      ensures Attached(net, ds[i], segment)
    {
      assert IsListener(net, d, ds[i], |net|);
      assert ds[i] == d.(node := ds[i].node, input := ds[i].input);
      assert ds[i] in ds;
      SegmentReaches(net, segment, d, |net|, ds[i].node, ds[i].input);
    }
  }

  /** `e` carries the k-th frame sent, on the segment of its output. */
  predicate IsEchoOf(net: seq<Node>, segments: seq<nat>, sent: seq<Sent>, k: int, e: Delivery) {
    && 0 <= k < |sent|
    && sent[k].bytes == e.bytes
    && sent[k].output < |segments|
    && Attached(net, e, segments[sent[k].output])
  }

  predicate IsEcho(net: seq<Node>, segments: seq<nat>, frame: nat, sent: seq<Sent>, e: Delivery) {
    && IsInput(net, e.node, e.input) && e.frame == frame && e.relayed
    && exists k :: 0 <= k < |sent| && IsEchoOf(net, segments, sent, k, e)
  }

  predicate AreEchoes(net: seq<Node>, segments: seq<nat>, frame: nat, sent: seq<Sent>, es: seq<Delivery>) {
    forall i | 0 <= i < |es| :: IsEcho(net, segments, frame, sent, es[i])
  }

  lemma EchoesExtend(net: seq<Node>, segments: seq<nat>, frame: nat, init: seq<Sent>, last: Sent,
                     es: seq<Delivery>, fs: seq<Delivery>)
    requires AreEchoes(net, segments, frame, init, es) && last.output < |segments|
    requires AreListeners(net, Delivery(0, 0, last.bytes, frame, true), fs, |net|)
    requires forall i | 0 <= i < |fs| :: Attached(net, fs[i], segments[last.output])
    ensures AreEchoes(net, segments, frame, init + [last], es + fs)
  {
    var sent := init + [last];
    forall i | 0 <= i < |es|
      ensures IsEcho(net, segments, frame, sent, es[i])
    {
      assert IsEcho(net, segments, frame, init, es[i]);
      var k :| 0 <= k < |init| && IsEchoOf(net, segments, init, k, es[i]);
      assert IsEchoOf(net, segments, sent, k, es[i]);
    }
    forall i | 0 <= i < |fs|
      ensures IsEcho(net, segments, frame, sent, fs[i])
    {
      assert IsListener(net, Delivery(0, 0, last.bytes, frame, true), fs[i], |net|);
      assert IsEchoOf(net, segments, sent, |init|, fs[i]);
    }
  }

  lemma {:induction false} EchoFacts(net: seq<Node>, segments: seq<nat>, frame: nat, sent: seq<Sent>)
    requires forall k | 0 <= k < |sent| :: sent[k].output < |segments|
    ensures AreEchoes(net, segments, frame, sent, Echoes(net, segments, frame, sent))
    decreases |sent|
  {
    if |sent| == 0 {
    } else {
      var init, last := sent[..|sent| - 1], sent[|sent| - 1];
      var d := Delivery(0, 0, last.bytes, frame, true);
      EchoFacts(net, segments, frame, init);
      SegmentListeners(net, segments[last.output], d, |net|);
      OnSegmentAttached(net, segments[last.output], d);
      EchoesExtend(net, segments, frame, init, last, Echoes(net, segments, frame, init),
                   OnSegment(net, segments[last.output], last.bytes, frame, true));
      assert init + [last] == sent;
    }
  }

  function Next(net: seq<Node>, s: State, a: Action): (t: State)
    requires ValidNet(net) && ValidState(net, s) && Enabled(net, s, a)
    ensures ValidState(net, t)
  {
    match a
    case HostSend(segment, bytes) =>
      HostSendValid(net, s, segment, bytes);
      s.(pending := s.pending + OnSegment(net, segment, bytes, s.hostFrames, false),
         hostFrames := s.hostFrames + 1)
    case Deliver(i, received, now) =>
      var (limiter, sent) := Outcome(net, s, i, received, now);
      OutcomeFacts(net, s, i, received, now);
      HandledValid(net, s, i, limiter, sent);
      Handled(net, s, i, limiter, sent)
    case Lose(i) =>
      RemoveValid(net, s, i);
      s.(pending := Remove(s.pending, i))
  }

  // ---------------------------------------------------------------- what a step does

  lemma OnSegmentIff(net: seq<Node>, segment: nat, bytes: seq<byte>, frame: nat, relayed: bool, x: Delivery)
    ensures x in OnSegment(net, segment, bytes, frame, relayed)
            <==> Attached(net, x, segment) && x == Delivery(x.node, x.input, bytes, frame, relayed)
  {
    var d := Delivery(0, 0, bytes, frame, relayed);
    var ds := OnSegment(net, segment, bytes, frame, relayed);
    SegmentListeners(net, segment, d, |net|);
    OnSegmentAttached(net, segment, d);
    SegmentReaches(net, segment, d, |net|, x.node, x.input);
    if x in ds {
      var i :| 0 <= i < |ds| && ds[i] == x;
      assert IsListener(net, d, ds[i], |net|);
    }
  }

  lemma {:induction false} EchoIncluded(
      net: seq<Node>, segments: seq<nat>, frame: nat, sent: seq<Sent>, k: nat, x: Delivery)
    requires forall l | 0 <= l < |sent| :: sent[l].output < |segments|
    requires IsEchoOf(net, segments, sent, k, x) && x.frame == frame && x.relayed
    ensures x in Echoes(net, segments, frame, sent)
    decreases |sent|
  {
    var init, last := sent[..|sent| - 1], sent[|sent| - 1];
    if k < |init| {
      assert IsEchoOf(net, segments, init, k, x);
      EchoIncluded(net, segments, frame, init, k, x);
    } else {
      OnSegmentIff(net, segments[last.output], last.bytes, frame, true, x);
    }
  }

  /** A host frame comes under way to every input on its segment, once each, and to no other; nothing
      else changes. */
  lemma HostSendMeaning(net: seq<Node>, s: State, segment: nat, bytes: seq<byte>)
    requires ValidNet(net) && ValidState(net, s)
    ensures var t := Next(net, s, HostSend(segment, bytes));
            && t.limiters == s.limiters && t.log == s.log && t.hostFrames == s.hostFrames + 1
            && s.pending <= t.pending
            && (forall x :: x in t.pending[|s.pending|..]
                  <==> Attached(net, x, segment) && x == Delivery(x.node, x.input, bytes, s.hostFrames, false))
            && (forall j, k | |s.pending| <= j < k < |t.pending| :: t.pending[j] != t.pending[k])
  {
    var t := Next(net, s, HostSend(segment, bytes));
    var added := OnSegment(net, segment, bytes, s.hostFrames, false);
    assert t.pending[|s.pending|..] == added;
    forall x
      ensures x in added
              <==> Attached(net, x, segment) && x == Delivery(x.node, x.input, bytes, s.hostFrames, false)
    {
      OnSegmentIff(net, segment, bytes, s.hostFrames, false, x);
    }
    SegmentListeners(net, segment, Delivery(0, 0, bytes, s.hostFrames, false), |net|);
    forall j, k | |s.pending| <= j < k < |t.pending|
      ensures t.pending[j] != t.pending[k]
    {
      assert Before(added[j - |s.pending|], added[k - |s.pending|]);
    }
  }

  /** `x` is under way because instance `node` has sent the k-th of these frames for host frame `frame`. */
  predicate IsOnItsWay(net: seq<Node>, node: Node, frame: nat, sent: seq<Sent>, k: int, x: Delivery) {
    && 0 <= k < |sent|
    && sent[k].output < |node.outputSegments|
    && Attached(net, x, node.outputSegments[sent[k].output])
    && x == Delivery(x.node, x.input, sent[k].bytes, frame, true)
  }

  /** What an instance sends on receiving a frame comes under way to every input on the segment of each
      output, and nothing else does; the relaying is recorded, the limiter of this instance moves on,
      the frame received is used up and all other frames stay under way. */
  lemma DeliverMeaning(net: seq<Node>, s: State, i: nat, received: seq<byte>, now: real)
    requires ValidNet(net) && ValidState(net, s) && Enabled(net, s, Deliver(i, received, now))
    ensures var t, d, n := Next(net, s, Deliver(i, received, now)), s.pending[i], |s.pending| - 1;
            var node := net[d.node];
            var e := Event(node.cfg.inputs[d.input].ifname, received, now);
            var (limiter, sent) := Handle(node.cfg, s.limiters[d.node], e);
            && t.limiters == s.limiters[d.node := limiter] && t.hostFrames == s.hostFrames
            && |t.pending| >= n
            && (forall j | 0 <= j < n :: t.pending[j] == s.pending[if j < i then j else j + 1])
            && (forall x :: x in t.pending[n..]
                  <==> exists k :: 0 <= k < |sent| && IsOnItsWay(net, node, d.frame, sent, k, x))
            && |t.log| == |s.log| + |sent| && s.log <= t.log
            && (forall k | 0 <= k < |sent| ::
                  t.log[|s.log| + k] == Relaying(d.frame, d.node, d.input, sent[k].output))
  {
    var t, d, n := Next(net, s, Deliver(i, received, now)), s.pending[i], |s.pending| - 1;
    var segments := net[d.node].outputSegments;
    var (limiter, sent) := Outcome(net, s, i, received, now);
    OutcomeFacts(net, s, i, received, now);
    var added := Echoes(net, segments, d.frame, sent);
    assert t.pending == Remove(s.pending, i) + added;
    assert t.pending[n..] == added;
    EchoFacts(net, segments, d.frame, sent);
    forall x
      ensures x in added <==> exists k :: 0 <= k < |sent| && IsOnItsWay(net, net[d.node], d.frame, sent, k, x)
    {
      EchoIff(net, net[d.node], d.frame, sent, x);
    }
  }

  lemma EchoIff(net: seq<Node>, node: Node, frame: nat, sent: seq<Sent>, x: Delivery)
    requires forall l | 0 <= l < |sent| :: sent[l].output < |node.outputSegments|
    ensures x in Echoes(net, node.outputSegments, frame, sent)
            <==> exists k :: 0 <= k < |sent| && IsOnItsWay(net, node, frame, sent, k, x)
  {
    var segments := node.outputSegments;
    var added := Echoes(net, segments, frame, sent);
    if x in added {
      var j :| 0 <= j < |added| && added[j] == x;
      EchoFacts(net, segments, frame, sent);
      assert IsEcho(net, segments, frame, sent, added[j]);
      var k :| 0 <= k < |sent| && IsEchoOf(net, segments, sent, k, x);
      assert IsOnItsWay(net, node, frame, sent, k, x);
    }
    if k :| 0 <= k < |sent| && IsOnItsWay(net, node, frame, sent, k, x) {
      assert IsEchoOf(net, segments, sent, k, x);
      EchoIncluded(net, segments, frame, sent, k, x);
    }
  }

  /** So a frame that an instance sends is under way to every input on the segment of its output. */
  lemma SentArrives(net: seq<Node>, s: State, i: nat, received: seq<byte>, now: real, k: nat, x: Delivery)
    returns (j: nat)
    requires ValidNet(net) && ValidState(net, s) && Enabled(net, s, Deliver(i, received, now))
    requires var d := s.pending[i];
             var e := Event(net[d.node].cfg.inputs[d.input].ifname, received, now);
             IsOnItsWay(net, net[d.node], d.frame, Handle(net[d.node].cfg, s.limiters[d.node], e).1, k, x)
    ensures var t := Next(net, s, Deliver(i, received, now));
            j < |t.pending| && t.pending[j] == x && |t.log| > 0
  {
    DeliverMeaning(net, s, i, received, now);
    var t, n := Next(net, s, Deliver(i, received, now)), |s.pending| - 1;
    assert x in t.pending[n..];
    var m :| 0 <= m < |t.pending[n..]| && t.pending[n..][m] == x;
    j := n + m;
  }

  /** A loss takes one frame away and changes nothing else. Which steps can be taken: a host can always
      send, and every frame under way can be lost, or be delivered with an intact header. */
  lemma LoseMeaning(net: seq<Node>, s: State, i: nat)
    requires ValidNet(net) && ValidState(net, s)
    ensures Enabled(net, s, Lose(i)) <==> i < |s.pending|
    ensures forall segment: nat, bytes: seq<byte> :: Enabled(net, s, HostSend(segment, bytes))
    ensures i < |s.pending| ==>
              && (forall now: real :: Enabled(net, s, Deliver(i, s.pending[i].bytes, now)))
              && Next(net, s, Lose(i)) == s.(pending := s.pending[..i] + s.pending[i + 1..])
  {
  }

  lemma RemoveValid(net: seq<Node>, s: State, i: nat)
    requires ValidState(net, s) && i < |s.pending|
    ensures ValidState(net, s.(pending := Remove(s.pending, i)))
  {
    var q := Remove(s.pending, i);
    assert forall k | 0 <= k < |q| :: q[k] == s.pending[if k < i then k else k + 1];
  }

  lemma HostSendValid(net: seq<Node>, s: State, segment: nat, bytes: seq<byte>)
    requires ValidState(net, s)
    ensures ValidState(net, s.(pending := s.pending + OnSegment(net, segment, bytes, s.hostFrames, false)))
  {
    var d := Delivery(0, 0, bytes, s.hostFrames, false);
    var ds := OnSegment(net, segment, bytes, s.hostFrames, false);
    SegmentListeners(net, segment, d, |net|);
    assert forall k | 0 <= k < |ds| :: IsListener(net, d, ds[k], |net|) ==> IsInput(net, ds[k].node, ds[k].input);
  }

  lemma HandledValid(net: seq<Node>, s: State, i: nat, limiter: Option<Bucket>, sent: seq<Sent>)
    requires ValidNet(net) && ValidState(net, s) && i < |s.pending|
    requires forall k | 0 <= k < |sent| :: sent[k].output < |net[s.pending[i].node].outputSegments|
    ensures ValidState(net, Handled(net, s, i, limiter, sent))
  {
    var d := s.pending[i];
    var es := Echoes(net, net[d.node].outputSegments, d.frame, sent);
    RemoveValid(net, s, i);
    EchoFacts(net, net[d.node].outputSegments, d.frame, sent);
    assert forall k | 0 <= k < |es| ::
      IsEcho(net, net[d.node].outputSegments, d.frame, sent, es[k]) ==> IsInput(net, es[k].node, es[k].input);
  }

  /** What a sent frame carries: a valid header with the loop marker. */
  predicate IsMarked(bytes: seq<byte>) {
    ValidateIpv4Header(bytes).Some? && IsAlreadyRelayed(bytes)
  }

  /** The frames of one packet: marked, and one at most for each of `outputs` outputs. */
  predicate AreMarkedCopies(sent: seq<Sent>, outputs: nat) {
    && (forall k | 0 <= k < |sent| :: sent[k].output < outputs && IsMarked(sent[k].bytes))
    && (forall k, l | 0 <= k < l < |sent| :: sent[k].output < sent[l].output)
  }

  lemma HandleMarks(cfg: RelayConfig, limiter: Option<Bucket>, e: Event)
    ensures AreMarkedCopies(Handle(cfg, limiter, e).1, |cfg.outputs|)
  {
    HandleCopies(cfg, limiter, e);
    var out := Handle(cfg, limiter, e).1;
    forall k | 0 <= k < |out|
      ensures out[k].output < |cfg.outputs| && IsMarked(out[k].bytes)
    {
      assert IsCopyOf(cfg, e)(out[k]);
      CopyOfIsGood(cfg, e, out[k]);
    }
  }

  lemma OutcomeFacts(net: seq<Node>, s: State, i: nat, received: seq<byte>, now: real)
    requires ValidNet(net) && ValidState(net, s) && i < |s.pending|
    ensures AreMarkedCopies(Outcome(net, s, i, received, now).1, |net[s.pending[i].node].outputSegments|)
  {
    var d := s.pending[i];
    var cfg := net[d.node].cfg;
    HandleMarks(cfg, s.limiters[d.node], Event(cfg.inputs[d.input].ifname, received, now));
  }

  /** The marker survives every segment, so an instance drops the frame and asks no limiter. */
  lemma MarkedIsDropped(cfg: RelayConfig, limiter: Option<Bucket>, bytes: seq<byte>, e: Event)
    requires IsMarked(bytes) && HeaderPreserved(bytes, e.frame)
    ensures Handle(cfg, limiter, e) == (limiter, [])
  {
    var frame := Clip(e.frame);
    assert frame[..20] == e.frame[..20];
    MarkerDependsOnHeaderOnly(bytes, frame);
  }

  // ---------------------------------------------------------------- runs

  predicate IsInitial(net: seq<Node>, s: State) {
    s.pending == [] && |s.limiters| == |net| && s.hostFrames == 0 && s.log == []
  }

  /** The state after a sequence of actions, unless one of them is not enabled. */
  function Exec(net: seq<Node>, s: State, actions: seq<Action>): (r: Option<State>)
    requires ValidNet(net) && ValidState(net, s)
    ensures r.Some? ==> ValidState(net, r.value)
    decreases |actions|
  {
    if |actions| == 0 then Some(s)
    else
      match Exec(net, s, actions[..|actions| - 1])
      case None => None
      case Some(t) =>
        var a := actions[|actions| - 1];
        if Enabled(net, t, a) then Some(Next(net, t, a)) else None
  }

  lemma ExecNext(net: seq<Node>, s: State, init: seq<Action>, a: Action, t: State)
    requires ValidNet(net) && ValidState(net, s) && Exec(net, s, init) == Some(t) && Enabled(net, t, a)
    ensures Exec(net, s, init + [a]) == Some(Next(net, t, a))
  {
    assert (init + [a])[..|init|] == init;
  }

  /** Frames that a relay has sent carry the marker. */
  predicate EchoesMarked(s: State) {
    forall i | 0 <= i < |s.pending| && s.pending[i].relayed :: IsMarked(s.pending[i].bytes)
  }

  predicate SameInput(d: Delivery, e: Delivery) {
    d.frame == e.frame && d.node == e.node && d.input == e.input
  }

  predicate IsFrom(r: Relaying, d: Delivery) {
    r.frame == d.frame && r.node == d.node && r.input == d.input
  }

  /** Only host frames sent so far are under way or relayed; none is under way twice to one input, and
      none that is still under way to an input has been relayed from there. */
  predicate OnceEach(s: State) {
    && (forall i | 0 <= i < |s.pending| :: s.pending[i].frame < s.hostFrames)
    && (forall i, j | 0 <= i < j < |s.pending| && !s.pending[i].relayed && !s.pending[j].relayed ::
          !SameInput(s.pending[i], s.pending[j]))
    && (forall i, k | 0 <= i < |s.pending| && !s.pending[i].relayed && 0 <= k < |s.log| ::
          !IsFrom(s.log[k], s.pending[i]))
  }

  /** No host frame has been relayed twice from one input to one output. */
  predicate RelayedOnce(s: State) {
    && (forall k | 0 <= k < |s.log| :: s.log[k].frame < s.hostFrames)
    && (forall k, l | 0 <= k < l < |s.log| :: s.log[k] != s.log[l])
  }

  predicate Inv(s: State) {
    EchoesMarked(s) && OnceEach(s) && RelayedOnce(s)
  }

  lemma RemoveKeepsInv(s: State, i: nat)
    requires Inv(s) && i < |s.pending|
    ensures Inv(s.(pending := Remove(s.pending, i)))
  {
    var p, q := s.pending, Remove(s.pending, i);
    assert forall k | 0 <= k < |q| :: q[k] == p[if k < i then k else k + 1];
  }

  lemma HostSendKeepsInv(net: seq<Node>, s: State, segment: nat, bytes: seq<byte>)
    requires Inv(s)
    ensures Inv(s.(pending := s.pending + OnSegment(net, segment, bytes, s.hostFrames, false),
                   hostFrames := s.hostFrames + 1))
  {
    var d := Delivery(0, 0, bytes, s.hostFrames, false);
    SegmentListeners(net, segment, d, |net|);
    var added := OnSegment(net, segment, bytes, s.hostFrames, false);
    assert forall i | 0 <= i < |added| :: IsListener(net, d, added[i], |net|) ==> added[i].frame == s.hostFrames;
    AddHostFrames(s, added);
  }

  lemma AddHostFrames(s: State, added: seq<Delivery>)
    requires Inv(s)
    requires forall i | 0 <= i < |added| :: added[i].frame == s.hostFrames && !added[i].relayed
    requires forall i, j | 0 <= i < j < |added| :: Before(added[i], added[j])
    ensures Inv(s.(pending := s.pending + added, hostFrames := s.hostFrames + 1))
  {
    var t := s.(pending := s.pending + added, hostFrames := s.hostFrames + 1);
    var n := |s.pending|;
    assert forall i | 0 <= i < |t.pending| :: t.pending[i] == if i < n then s.pending[i] else added[i - n];
  }

  /** Echoes of a frame whose own delivery is over. */
  lemma AddEchoes(s: State, added: seq<Delivery>)
    requires Inv(s)
    requires forall i | 0 <= i < |added| ::
               added[i].frame < s.hostFrames && added[i].relayed && IsMarked(added[i].bytes)
    ensures Inv(s.(pending := s.pending + added))
  {
    var t := s.(pending := s.pending + added);
    var n := |s.pending|;
    assert forall i | 0 <= i < |t.pending| :: t.pending[i] == if i < n then s.pending[i] else added[i - n];
  }

  /** The relayings of a host frame that is no longer under way to that input. */
  lemma AddRelayings(s: State, d: Delivery, sent: seq<Sent>)
    requires Inv(s) && d.frame < s.hostFrames
    requires forall i | 0 <= i < |s.pending| && !s.pending[i].relayed :: !SameInput(s.pending[i], d)
    requires forall k | 0 <= k < |s.log| :: !IsFrom(s.log[k], d)
    requires forall k, l | 0 <= k < l < |sent| :: sent[k].output < sent[l].output
    ensures Inv(s.(log := s.log + Relayings(d, sent)))
  {
    var added := Relayings(d, sent);
    var t := s.(log := s.log + added);
    var n := |s.log|;
    assert forall k | 0 <= k < |t.log| :: t.log[k] == if k < n then s.log[k] else added[k - n];
    assert forall k | 0 <= k < |added| :: IsFrom(added[k], d);
  }

  /** A host frame is handled: its delivery ends, it is relayed, its copies are sent. */
  lemma HandledKeepsInv(net: seq<Node>, s: State, i: nat, limiter: Option<Bucket>, sent: seq<Sent>)
    requires ValidNet(net) && ValidState(net, s) && i < |s.pending|
    requires AreMarkedCopies(sent, |net[s.pending[i].node].outputSegments|)
    requires Inv(s) && !s.pending[i].relayed
    ensures Inv(Handled(net, s, i, limiter, sent))
  {
    var d := s.pending[i];
    var es := Echoes(net, net[d.node].outputSegments, d.frame, sent);
    var r := s.(pending := Remove(s.pending, i));
    RemoveKeepsInv(s, i);
    RemovedIsGone(s, i);
    AddRelayings(r, d, sent);
    EchoFacts(net, net[d.node].outputSegments, d.frame, sent);
    forall k | 0 <= k < |es|
      ensures es[k].frame < s.hostFrames && es[k].relayed && IsMarked(es[k].bytes)
    {
      assert IsEcho(net, net[d.node].outputSegments, d.frame, sent, es[k]);
    }
    AddEchoes(r.(log := s.log + Relayings(d, sent)), es);
    LimitersDoNotMatter(r.(log := s.log + Relayings(d, sent), pending := r.pending + es),
                        s.limiters[d.node := limiter]);
  }

  lemma LimitersDoNotMatter(s: State, limiters: seq<Option<Bucket>>)
    requires Inv(s)
    ensures Inv(s.(limiters := limiters))
  {
  }

  lemma RemovedIsGone(s: State, i: nat)
    requires Inv(s) && i < |s.pending| && !s.pending[i].relayed
    ensures forall k | 0 <= k < |Remove(s.pending, i)| && !Remove(s.pending, i)[k].relayed ::
              !SameInput(Remove(s.pending, i)[k], s.pending[i])
  {
    var p, q := s.pending, Remove(s.pending, i);
    assert forall k | 0 <= k < |q| :: q[k] == p[if k < i then k else k + 1];
  }

  /** A relayed frame is never relayed again: whichever instance receives it, its own sender included,
      drops it, sends nothing and leaves every limiter as it is. */
  lemma RelayedIsDropped(net: seq<Node>, s: State, i: nat, received: seq<byte>, now: real)
    requires ValidNet(net) && ValidState(net, s) && Inv(s)
    requires Enabled(net, s, Deliver(i, received, now)) && s.pending[i].relayed
    ensures Next(net, s, Deliver(i, received, now)) == s.(pending := Remove(s.pending, i))
  {
    var d := s.pending[i];
    var cfg := net[d.node].cfg;
    assert IsMarked(d.bytes);
    MarkedIsDropped(cfg, s.limiters[d.node], d.bytes, Event(cfg.inputs[d.input].ifname, received, now));
    assert Outcome(net, s, i, received, now) == (s.limiters[d.node], []);
    NothingHandled(net, s, i);
  }

  lemma NothingHandled(net: seq<Node>, s: State, i: nat)
    requires ValidNet(net) && ValidState(net, s) && i < |s.pending|
    ensures Handled(net, s, i, s.limiters[s.pending[i].node], []) == s.(pending := Remove(s.pending, i))
  {
    var d := s.pending[i];
    assert s.limiters[d.node := s.limiters[d.node]] == s.limiters;
    assert Remove(s.pending, i) + [] == Remove(s.pending, i);
    assert s.log + Relayings(d, []) == s.log;
  }

  /** Every step keeps the invariant. */
  lemma NextKeepsInv(net: seq<Node>, s: State, a: Action)
    requires ValidNet(net) && ValidState(net, s) && Enabled(net, s, a) && Inv(s)
    ensures Inv(Next(net, s, a))
  {
    match a
    case HostSend(segment, bytes) => HostSendKeepsInv(net, s, segment, bytes);
    case Deliver(i, received, now) =>
      if s.pending[i].relayed {
        RelayedIsDropped(net, s, i, received, now);
        RemoveKeepsInv(s, i);
      } else {
        OutcomeFacts(net, s, i, received, now);
        var (limiter, sent) := Outcome(net, s, i, received, now);
        HandledKeepsInv(net, s, i, limiter, sent);
      }
    case Lose(i) => RemoveKeepsInv(s, i);
  }

  // ---------------------------------------------------------------- counting

  type Weight = Delivery -> nat

  function Total(w: Weight, ds: seq<Delivery>): nat {
    if |ds| == 0 then 0 else Total(w, ds[..|ds| - 1]) + w(ds[|ds| - 1])
  }

  lemma {:induction false} TotalConcat(w: Weight, a: seq<Delivery>, b: seq<Delivery>)
    ensures Total(w, a + b) == Total(w, a) + Total(w, b)
    decreases |b|
  {
    if |b| == 0 {
      assert a + b == a;
    } else {
      TotalConcat(w, a, b[..|b| - 1]);
      assert (a + b)[..|a + b| - 1] == a + b[..|b| - 1];
    }
  }

  lemma TotalSplit(w: Weight, head: seq<Delivery>, d: Delivery, tail: seq<Delivery>)
    ensures Total(w, (head + [d]) + tail) == Total(w, head + tail) + w(d)
  {
    TotalConcat(w, head + [d], tail);
    TotalConcat(w, head, [d]);
    TotalConcat(w, head, tail);
    assert Total(w, [d]) == Total(w, [d][..0]) + w(d);
  }

  lemma TotalRemove(w: Weight, ds: seq<Delivery>, i: nat)
    requires i < |ds|
    ensures Total(w, ds) == Total(w, Remove(ds, i)) + w(ds[i])
  {
    TotalSplit(w, ds[..i], ds[i], ds[i + 1..]);
    SplitAt(ds, i);
  }

  lemma SplitAt<T>(s: seq<T>, i: nat)
    requires i < |s|
    ensures (s[..i] + [s[i]]) + s[i + 1..] == s
  {
  }

  lemma {:induction false} TotalConstant(w: Weight, ds: seq<Delivery>, c: nat)
    requires forall i | 0 <= i < |ds| :: w(ds[i]) == c
    ensures Total(w, ds) == c * |ds|
    decreases |ds|
  {
    if |ds| == 0 {
    } else {
      TotalConstant(w, ds[..|ds| - 1], c);
    }
  }

  /** The input sockets of the first `n` nodes, each counted with a weight of its node. */
  function PerInput(net: seq<Node>, f: nat -> nat, n: nat): nat
    requires n <= |net|
  {
    if n == 0 then 0 else PerInput(net, f, n - 1) + |net[n - 1].inputSegments| * f(n - 1)
  }

  lemma {:induction false} ToInputsCount(segments: seq<nat>, segment: nat, d: Delivery, m: nat)
    requires m <= |segments|
    ensures |ToInputs(segments, segment, d, m)| <= m
  {
    if m == 0 {
    } else {
      ToInputsCount(segments, segment, d, m - 1);
    }
  }

  /** What one node adds. */
  lemma NodeTotal(segments: seq<nat>, segment: nat, d: Delivery, w: Weight, c: nat)
    requires forall e: Delivery | e.relayed == d.relayed && e.node == d.node :: w(e) == c
    ensures Total(w, ToInputs(segments, segment, d, |segments|)) <= |segments| * c
  {
    var es := ToInputs(segments, segment, d, |segments|);
    InputListeners(segments, segment, d, |segments|);
    ToInputsCount(segments, segment, d, |segments|);
    assert forall i | 0 <= i < |es| :: es[i] == d.(input := es[i].input);
    TotalConstant(w, es, c);
    MulMonotone(|es|, |segments|, c);
  }

  /** A frame put on a segment weighs no more than one delivery to every input there is. */
  lemma {:induction false} SegmentTotal(
      net: seq<Node>, segment: nat, d: Delivery, w: Weight, f: nat -> nat, n: nat)
    requires n <= |net|
    requires forall e: Delivery | e.relayed == d.relayed :: w(e) == f(e.node)
    ensures Total(w, ToSegment(net, segment, d, n)) <= PerInput(net, f, n)
  {
    if n == 0 {
    } else {
      var segments, d' := net[n - 1].inputSegments, d.(node := n - 1);
      SegmentTotal(net, segment, d, w, f, n - 1);
      NodeTotal(segments, segment, d', w, f(n - 1));
      TotalConcat(w, ToSegment(net, segment, d, n - 1), ToInputs(segments, segment, d', |segments|));
    }
  }

  lemma MulMonotone(a: nat, b: nat, c: nat)
    requires a <= b
    ensures c * a <= b * c
  {
  }

  lemma MulMonotone2(a: nat, b: nat, c: nat)
    requires a <= b
    ensures a * c <= b * c
  {
  }

  function OutputsOf(net: seq<Node>, n: nat): nat {
    if n < |net| then |net[n].outputSegments| else 0
  }

  function OutputCount(net: seq<Node>): nat -> nat {
    n => OutputsOf(net, n)
  }

  function InputCount(net: seq<Node>): nat {
    PerInput(net, _ => 1, |net|)
  }

  /** The pairs of an input and an output socket of the same instance. */
  function Pairs(net: seq<Node>): nat {
    PerInput(net, OutputCount(net), |net|)
  }

  /** How many deliveries the handling of a host frame by this node can be worth. */
  function CostAt(net: seq<Node>, n: nat): nat {
    1 + OutputsOf(net, n) * InputCount(net)
  }

  function HandlingCost(net: seq<Node>): nat -> nat {
    n => CostAt(net, n)
  }

  /** How often a pending delivery may still be relayed. */
  function RelayingsOf(net: seq<Node>, d: Delivery): nat {
    if d.relayed then 0 else OutputsOf(net, d.node)
  }

  function RelayingsLeft(net: seq<Node>): Weight {
    d => RelayingsOf(net, d)
  }

  /** How many deliveries a pending delivery may still account for, itself included. */
  function DeliveriesOf(net: seq<Node>, d: Delivery): (n: nat)
    ensures n > 0
  {
    if d.relayed then 1 else CostAt(net, d.node)
  }

  function DeliveriesLeft(net: seq<Node>): Weight {
    d => DeliveriesOf(net, d)
  }

  /** How many deliveries one host frame may account for. */
  function FrameCost(net: seq<Node>): nat {
    PerInput(net, HandlingCost(net), |net|)
  }

  /** The measure that every delivery and every loss decreases. */
  function Measure(net: seq<Node>, s: State): nat {
    Total(DeliveriesLeft(net), s.pending)
  }

  lemma {:induction false} OnSegmentCount(net: seq<Node>, segment: nat, d: Delivery, n: nat)
    requires n <= |net|
    ensures |ToSegment(net, segment, d, n)| <= PerInput(net, _ => 1, n)
  {
    var one: Weight := _ => 1;
    SegmentTotal(net, segment, d, one, _ => 1, n);
    TotalConstant(one, ToSegment(net, segment, d, n), 1);
    SamePerInput(net, _ => 1, _ => 1, n);
  }

  lemma {:induction false} SamePerInput(net: seq<Node>, f: nat -> nat, g: nat -> nat, n: nat)
    requires n <= |net| && forall k: nat :: f(k) == g(k)
    ensures PerInput(net, f, n) == PerInput(net, g, n)
  {
    if n == 0 {
    } else {
      SamePerInput(net, f, g, n - 1);
    }
  }

  lemma {:induction false} EchoCount(net: seq<Node>, segments: seq<nat>, frame: nat, sent: seq<Sent>)
    requires forall k | 0 <= k < |sent| :: sent[k].output < |segments|
    ensures |Echoes(net, segments, frame, sent)| <= |sent| * InputCount(net)
    decreases |sent|
  {
    if |sent| == 0 {
    } else {
      var init, last := sent[..|sent| - 1], sent[|sent| - 1];
      EchoCount(net, segments, frame, init);
      OnSegmentCount(net, segments[last.output], Delivery(0, 0, last.bytes, frame, true), |net|);
      SamePerInput(net, _ => 1, _ => 1, |net|);
      assert |sent| * InputCount(net) == (|sent| - 1) * InputCount(net) + InputCount(net);
    }
  }

  /** Strictly increasing outputs below a bound are no more than the bound. */
  lemma {:induction false} IncreasingOutputs(sent: seq<Sent>, n: nat)
    requires AreMarkedCopies(sent, n)
    ensures |sent| <= n
    ensures |sent| > 0 ==> |sent| - 1 <= sent[|sent| - 1].output < n
    decreases |sent|
  {
    if |sent| > 1 {
      var init := sent[..|sent| - 1];
      IncreasingOutputs(init, n);
      assert init[|init| - 1].output == sent[|sent| - 2].output < sent[|sent| - 1].output;
    } else if |sent| == 1 {
      assert sent[0].output < n;
    }
  }

  /** The echoes of a host frame are fewer than its own delivery accounted for. */
  lemma EchoesAreFewer(net: seq<Node>, d: Delivery, sent: seq<Sent>)
    requires d.node < |net| && !d.relayed && AreMarkedCopies(sent, |net[d.node].outputSegments|)
    ensures var es := Echoes(net, net[d.node].outputSegments, d.frame, sent);
            && (forall k | 0 <= k < |es| :: es[k].relayed)
            && |es| < DeliveriesOf(net, d)
            && |sent| <= RelayingsOf(net, d)
  {
    var outputs := |net[d.node].outputSegments|;
    var es := Echoes(net, net[d.node].outputSegments, d.frame, sent);
    IncreasingOutputs(sent, outputs);
    EchoFacts(net, net[d.node].outputSegments, d.frame, sent);
    EchoCount(net, net[d.node].outputSegments, d.frame, sent);
    assert forall k | 0 <= k < |es| :: IsEcho(net, net[d.node].outputSegments, d.frame, sent, es[k]) ==> es[k].relayed;
    MulMonotone2(|sent|, outputs, InputCount(net));
  }

  lemma ReplacedTotals(net: seq<Node>, pending: seq<Delivery>, i: nat, es: seq<Delivery>)
    requires i < |pending| && forall k | 0 <= k < |es| :: es[k].relayed
    ensures var after := Remove(pending, i) + es;
            && Total(DeliveriesLeft(net), after) + DeliveriesOf(net, pending[i])
               == Total(DeliveriesLeft(net), pending) + |es|
            && Total(RelayingsLeft(net), after) + RelayingsOf(net, pending[i])
               == Total(RelayingsLeft(net), pending)
  {
    EchoTotals(net, es);
    TotalConcat(DeliveriesLeft(net), Remove(pending, i), es);
    TotalConcat(RelayingsLeft(net), Remove(pending, i), es);
    TotalRemove(DeliveriesLeft(net), pending, i);
    TotalRemove(RelayingsLeft(net), pending, i);
  }

  /** Handling a host frame: it is relayed at most once per output, and the deliveries it leads to are
      fewer than it accounted for. */
  lemma HandledCounts(net: seq<Node>, s: State, i: nat, limiter: Option<Bucket>, sent: seq<Sent>)
    requires ValidNet(net) && ValidState(net, s) && i < |s.pending| && !s.pending[i].relayed
    requires AreMarkedCopies(sent, |net[s.pending[i].node].outputSegments|)
    ensures var t := Handled(net, s, i, limiter, sent);
            && Measure(net, t) < Measure(net, s)
            && |t.log| + Total(RelayingsLeft(net), t.pending) <= |s.log| + Total(RelayingsLeft(net), s.pending)
  {
    var d := s.pending[i];
    EchoesAreFewer(net, d, sent);
    ReplacedTotals(net, s.pending, i, Echoes(net, net[d.node].outputSegments, d.frame, sent));
    assert |Relayings(d, sent)| == |sent|;
  }

  lemma EchoTotals(net: seq<Node>, es: seq<Delivery>)
    requires forall k | 0 <= k < |es| :: es[k].relayed
    ensures Total(DeliveriesLeft(net), es) == |es| && Total(RelayingsLeft(net), es) == 0
  {
    TotalConstant(DeliveriesLeft(net), es, 1);
    TotalConstant(RelayingsLeft(net), es, 0);
  }

  lemma HostSendCounts(net: seq<Node>, segment: nat, bytes: seq<byte>, frame: nat)
    ensures var ds := OnSegment(net, segment, bytes, frame, false);
            && Total(DeliveriesLeft(net), ds) <= FrameCost(net)
            && Total(RelayingsLeft(net), ds) <= Pairs(net)
  {
    var d := Delivery(0, 0, bytes, frame, false);
    SegmentTotal(net, segment, d, DeliveriesLeft(net), HandlingCost(net), |net|);
    SegmentTotal(net, segment, d, RelayingsLeft(net), OutputCount(net), |net|);
  }

  /** Every delivery or loss decreases the measure; a host frame raises it by a bounded amount. The
      relayings done and left grow only with host frames. */
  lemma NextCounts(net: seq<Node>, s: State, a: Action)
    requires ValidNet(net) && ValidState(net, s) && Enabled(net, s, a) && Inv(s)
    ensures var t := Next(net, s, a);
            var before := |s.log| + Total(RelayingsLeft(net), s.pending);
            var after := |t.log| + Total(RelayingsLeft(net), t.pending);
            if a.HostSend? then
              && t.hostFrames == s.hostFrames + 1
              && Measure(net, t) <= Measure(net, s) + FrameCost(net)
              && after <= before + Pairs(net)
            else
              && t.hostFrames == s.hostFrames
              && Measure(net, t) < Measure(net, s)
              && after <= before
  {
    match a
    case HostSend(segment, bytes) =>
      var ds := OnSegment(net, segment, bytes, s.hostFrames, false);
      HostSendCounts(net, segment, bytes, s.hostFrames);
      TotalConcat(DeliveriesLeft(net), s.pending, ds);
      TotalConcat(RelayingsLeft(net), s.pending, ds);
    case Deliver(i, received, now) =>
      if s.pending[i].relayed {
        RelayedIsDropped(net, s, i, received, now);
        RemoveCounts(net, s, i);
      } else {
        OutcomeFacts(net, s, i, received, now);
        var (limiter, sent) := Outcome(net, s, i, received, now);
        HandledCounts(net, s, i, limiter, sent);
      }
    case Lose(i) => RemoveCounts(net, s, i);
  }

  lemma RemoveCounts(net: seq<Node>, s: State, i: nat)
    requires ValidNet(net) && ValidState(net, s) && i < |s.pending|
    ensures Total(DeliveriesLeft(net), Remove(s.pending, i)) < Total(DeliveriesLeft(net), s.pending)
    ensures Total(RelayingsLeft(net), Remove(s.pending, i)) <= Total(RelayingsLeft(net), s.pending)
  {
    TotalRemove(DeliveriesLeft(net), s.pending, i);
    TotalRemove(RelayingsLeft(net), s.pending, i);
  }

  function HostSends(actions: seq<Action>): nat {
    if |actions| == 0 then 0
    else HostSends(actions[..|actions| - 1]) + if actions[|actions| - 1].HostSend? then 1 else 0
  }

  /** A run of one action more is a run and one enabled step. */
  lemma LastAction(net: seq<Node>, s: State, actions: seq<Action>) returns (t: State)
    requires ValidNet(net) && ValidState(net, s) && |actions| > 0 && Exec(net, s, actions).Some?
    ensures var init, a := actions[..|actions| - 1], actions[|actions| - 1];
            && Exec(net, s, init) == Some(t) && ValidState(net, t) && Enabled(net, t, a)
            && Exec(net, s, actions) == Some(Next(net, t, a))
            && HostSends(actions) == HostSends(init) + if a.HostSend? then 1 else 0
  {
    t := Exec(net, s, actions[..|actions| - 1]).value;
  }

  lemma {:induction false} ReachableInv(net: seq<Node>, s: State, actions: seq<Action>)
    requires ValidNet(net) && IsInitial(net, s) && Exec(net, s, actions).Some?
    ensures Inv(Exec(net, s, actions).value)
    decreases |actions|
  {
    if |actions| == 0 {
    } else {
      var t := LastAction(net, s, actions);
      ReachableInv(net, s, actions[..|actions| - 1]);
      NextKeepsInv(net, t, actions[|actions| - 1]);
    }
  }

  /** The account of a run: the relayings done and still possible, and the actions taken and still
      possible, against the host frames. */
  predicate Accounted(net: seq<Node>, t: State, actions: nat, hosts: nat) {
    && t.hostFrames == hosts <= actions
    && |t.log| + Total(RelayingsLeft(net), t.pending) <= hosts * Pairs(net)
    && actions - hosts + Measure(net, t) <= hosts * FrameCost(net)
  }

  lemma AccountStep(net: seq<Node>, t: State, a: Action, actions: nat, hosts: nat)
    requires ValidNet(net) && ValidState(net, t) && Enabled(net, t, a) && Inv(t)
    requires Accounted(net, t, actions, hosts)
    ensures Accounted(net, Next(net, t, a), actions + 1, hosts + if a.HostSend? then 1 else 0)
  {
    NextCounts(net, t, a);
    Distribute(hosts, Pairs(net));
    Distribute(hosts, FrameCost(net));
  }

  lemma NothingToAccount(net: seq<Node>, s: State)
    requires IsInitial(net, s)
    ensures Accounted(net, s, 0, 0)
  {
  }

  lemma {:induction false} RunIsAccounted(net: seq<Node>, s: State, actions: seq<Action>)
    requires ValidNet(net) && IsInitial(net, s) && Exec(net, s, actions).Some?
    ensures Accounted(net, Exec(net, s, actions).value, |actions|, HostSends(actions))
    decreases |actions|
  {
    if |actions| == 0 {
      NothingToAccount(net, s);
    } else {
      var t := LastAction(net, s, actions);
      var init := actions[..|actions| - 1];
      RunIsAccounted(net, s, init);
      ReachableInv(net, s, init);
      AccountStep(net, t, actions[|actions| - 1], |init|, HostSends(init));
    }
  }

  /** In every run of every network of instances, with cycles and with inputs that hear their own
      output: no host frame is relayed twice from one input socket to one output socket, and a number
      of host frames is followed by a number of relayings and of deliveries that the network alone
      bounds. */
  lemma NetworkIsLoopFree(net: seq<Node>, s: State, actions: seq<Action>)
    requires ValidNet(net) && IsInitial(net, s) && Exec(net, s, actions).Some?
    ensures var t := Exec(net, s, actions).value;
            && RelayedOnce(t)
            && Accounted(net, t, |actions|, HostSends(actions))
  {
    ReachableInv(net, s, actions);
    RunIsAccounted(net, s, actions);
  }

  // ---------------------------------------------------------------- where frames come from

  /** The j-th action puts the bytes of host frame `d.frame` on a segment, and `d` carries them to an
      input on that segment. */
  predicate IsFromHost(net: seq<Node>, actions: seq<Action>, j: int, d: Delivery) {
    && 0 <= j < |actions|
    && actions[j].HostSend?
    && Attached(net, d, actions[j].segment)
    && actions[j].bytes == d.bytes
    && HostSends(actions[..j]) == d.frame
  }

  ghost predicate IsHostDelivery(net: seq<Node>, actions: seq<Action>, d: Delivery) {
    !d.relayed && exists j :: IsFromHost(net, actions, j, d)
  }

  /** The state before the k-th action of a run. */
  function StateAt(net: seq<Node>, s: State, actions: seq<Action>, k: nat): (r: Option<State>)
    requires ValidNet(net) && ValidState(net, s) && k <= |actions|
    ensures r.Some? ==> ValidState(net, r.value)
  {
    Exec(net, s, actions[..k])
  }

  /** The event of an instance receiving the frame of a delivery. */
  function ReceptionEvent(net: seq<Node>, at: Delivery, received: seq<byte>, now: real): Event
    requires ValidNet(net) && IsInput(net, at.node, at.input)
  {
    Event(net[at.node].cfg.inputs[at.input].ifname, received, now)
  }

  /** `d` carries what the instance that receives a frame at `at` sends to one of its outputs, on the
      segment of that output. */
  ghost predicate IsSentOn(net: seq<Node>, at: Delivery, received: seq<byte>, now: real, d: Delivery)
    requires ValidNet(net) && IsInput(net, at.node, at.input)
  {
    exists sent: Sent :: IsSentCopy(net, net[at.node], ReceptionEvent(net, at, received, now), sent, d)
  }

  predicate IsSentCopy(net: seq<Node>, node: Node, e: Event, sent: Sent, d: Delivery) {
    && CopyOf(node.cfg, e, sent)
    && sent.bytes == d.bytes
    && sent.output < |node.outputSegments|
    && Attached(net, d, node.outputSegments[sent.output])
  }

  /** The k-th action delivers host frame `d.frame`, as a host has sent it, to an instance that relays
      what it receives, and `d` carries its copy for one output, a good one, on the segment of that
      output. */
  ghost predicate IsCopyOfReception(net: seq<Node>, s: State, actions: seq<Action>, k: int, d: Delivery)
    requires ValidNet(net) && ValidState(net, s)
  {
    && 0 <= k < |actions|
    && actions[k].Deliver?
    && StateAt(net, s, actions, k).Some?
    && var t := StateAt(net, s, actions, k).value;
       && Enabled(net, t, actions[k])
       && IsHostDelivery(net, actions[..k], t.pending[actions[k].index])
       && t.pending[actions[k].index].frame == d.frame
       && IsSentOn(net, t.pending[actions[k].index], actions[k].received, actions[k].now, d)
       && GoodCopy(Clip(actions[k].received), d.bytes)
  }

  ghost predicate IsEchoDelivery(net: seq<Node>, s: State, actions: seq<Action>, d: Delivery)
    requires ValidNet(net) && ValidState(net, s)
  {
    d.relayed && exists k :: IsCopyOfReception(net, s, actions, k, d)
  }

  /** A frame under way is one that a host sent, or a good copy of one reception of such a frame. */
  ghost predicate IsTraced(net: seq<Node>, s: State, actions: seq<Action>, d: Delivery)
    requires ValidNet(net) && ValidState(net, s)
  {
    IsHostDelivery(net, actions, d) || IsEchoDelivery(net, s, actions, d)
  }

  ghost predicate AllTraced(net: seq<Node>, s: State, actions: seq<Action>, ds: seq<Delivery>)
    requires ValidNet(net) && ValidState(net, s)
  {
    forall i | 0 <= i < |ds| :: IsTraced(net, s, actions, ds[i])
  }

  lemma TracedExtends(net: seq<Node>, s: State, init: seq<Action>, a: Action, d: Delivery)
    requires ValidNet(net) && ValidState(net, s) && IsTraced(net, s, init, d)
    ensures IsTraced(net, s, init + [a], d)
  {
    var actions := init + [a];
    assert forall k | 0 <= k <= |init| :: actions[..k] == init[..k];
    assert forall k | 0 <= k < |init| :: actions[k] == init[k];
    if d.relayed {
      var k :| IsCopyOfReception(net, s, init, k, d);
      assert IsCopyOfReception(net, s, actions, k, d);
    } else {
      var j :| IsFromHost(net, init, j, d);
      assert IsFromHost(net, actions, j, d);
    }
  }

  lemma AllTracedExtends(net: seq<Node>, s: State, init: seq<Action>, a: Action, ds: seq<Delivery>)
    requires ValidNet(net) && ValidState(net, s) && AllTraced(net, s, init, ds)
    ensures AllTraced(net, s, init + [a], ds)
  {
    forall i | 0 <= i < |ds|
      ensures IsTraced(net, s, init + [a], ds[i])
    {
      TracedExtends(net, s, init, a, ds[i]);
    }
  }

  lemma AllTracedConcat(net: seq<Node>, s: State, actions: seq<Action>, ds: seq<Delivery>, es: seq<Delivery>)
    requires ValidNet(net) && ValidState(net, s) && AllTraced(net, s, actions, ds) && AllTraced(net, s, actions, es)
    ensures AllTraced(net, s, actions, ds + es)
  {
  }

  lemma AllTracedRemove(net: seq<Node>, s: State, actions: seq<Action>, ds: seq<Delivery>, i: nat)
    requires ValidNet(net) && ValidState(net, s) && i < |ds| && AllTraced(net, s, actions, ds)
    ensures AllTraced(net, s, actions, Remove(ds, i))
  {
    var q := Remove(ds, i);
    assert forall k | 0 <= k < |q| :: q[k] == ds[if k < i then k else k + 1];
  }

  /** What a host puts on a segment. */
  lemma HostDeliveriesTraced(net: seq<Node>, s: State, init: seq<Action>, segment: nat, bytes: seq<byte>)
    requires ValidNet(net) && ValidState(net, s)
    ensures AllTraced(net, s, init + [HostSend(segment, bytes)],
                      OnSegment(net, segment, bytes, HostSends(init), false))
  {
    var actions := init + [HostSend(segment, bytes)];
    var d := Delivery(0, 0, bytes, HostSends(init), false);
    var ds := OnSegment(net, segment, bytes, HostSends(init), false);
    SegmentListeners(net, segment, d, |net|);
    OnSegmentAttached(net, segment, d);
    assert actions[..|init|] == init;
    forall i | 0 <= i < |ds|
      ensures IsTraced(net, s, actions, ds[i])
    {
      assert IsListener(net, d, ds[i], |net|);
      assert IsFromHost(net, actions, |init|, ds[i]);
    }
  }

  /** The frames sent are good copies, made by the instance that received the packet. */
  predicate AreCopiesOf(node: Node, e: Event, sent: seq<Sent>) {
    forall k | 0 <= k < |sent| :: CopyOf(node.cfg, e, sent[k]) && GoodCopy(Clip(e.frame), sent[k].bytes)
  }

  lemma OutcomeIsGood(net: seq<Node>, s: State, i: nat, received: seq<byte>, now: real)
    requires ValidNet(net) && ValidState(net, s) && i < |s.pending|
    ensures AreCopiesOf(net[s.pending[i].node], ReceptionEvent(net, s.pending[i], received, now),
                        Outcome(net, s, i, received, now).1)
  {
    var d := s.pending[i];
    var cfg, e := net[d.node].cfg, ReceptionEvent(net, d, received, now);
    var sent := Outcome(net, s, i, received, now).1;
    HandleCopies(cfg, s.limiters[d.node], e);
    forall k | 0 <= k < |sent|
      ensures CopyOf(cfg, e, sent[k]) && GoodCopy(Clip(received), sent[k].bytes)
    {
      assert IsCopyOf(cfg, e)(sent[k]);
      CopyOfIsGood(cfg, e, sent[k]);
    }
  }

  /** What a relay sends on the delivery of a host frame. */
  lemma EchoesTraced(net: seq<Node>, s: State, init: seq<Action>, a: Action, t: State, es: seq<Delivery>,
                     sent: seq<Sent>)
    requires ValidNet(net) && ValidState(net, s) && Exec(net, s, init) == Some(t)
    requires a.Deliver? && Enabled(net, t, a) && IsHostDelivery(net, init, t.pending[a.index])
    requires var d := t.pending[a.index];
             && AreEchoes(net, net[d.node].outputSegments, d.frame, sent, es)
             && AreCopiesOf(net[d.node], ReceptionEvent(net, d, a.received, a.now), sent)
    ensures AllTraced(net, s, init + [a], es)
  {
    var actions := init + [a];
    var d := t.pending[a.index];
    var node, e := net[d.node], ReceptionEvent(net, d, a.received, a.now);
    assert actions[..|init|] == init && actions[|init|] == a;
    forall i | 0 <= i < |es|
      ensures IsTraced(net, s, actions, es[i])
    {
      assert IsEcho(net, node.outputSegments, d.frame, sent, es[i]);
      var k :| 0 <= k < |sent| && IsEchoOf(net, node.outputSegments, sent, k, es[i]);
      assert IsSentCopy(net, node, e, sent[k], es[i]);
      assert IsCopyOfReception(net, s, actions, |init|, es[i]);
    }
  }

  /** One more step of a run. */
  lemma TracedStep(net: seq<Node>, s: State, init: seq<Action>, a: Action, t: State)
    requires ValidNet(net) && ValidState(net, s) && Exec(net, s, init) == Some(t) && ValidState(net, t)
    requires Enabled(net, t, a) && Inv(t) && t.hostFrames == HostSends(init)
    requires AllTraced(net, s, init, t.pending)
    ensures AllTraced(net, s, init + [a], Next(net, t, a).pending)
  {
    var actions := init + [a];
    AllTracedExtends(net, s, init, a, t.pending);
    match a
    case HostSend(segment, bytes) =>
      HostDeliveriesTraced(net, s, init, segment, bytes);
      AllTracedConcat(net, s, actions, t.pending, OnSegment(net, segment, bytes, t.hostFrames, false));
    case Deliver(i, received, now) =>
      AllTracedRemove(net, s, actions, t.pending, i);
      if t.pending[i].relayed {
        RelayedIsDropped(net, t, i, received, now);
      } else {
        var d, sent := t.pending[i], Outcome(net, t, i, received, now).1;
        var segments := net[d.node].outputSegments;
        OutcomeFacts(net, t, i, received, now);
        OutcomeIsGood(net, t, i, received, now);
        EchoFacts(net, segments, d.frame, sent);
        assert IsTraced(net, s, init, d);
        EchoesTraced(net, s, init, a, t, Echoes(net, segments, d.frame, sent), sent);
        AllTracedConcat(net, s, actions, Remove(t.pending, i), Echoes(net, segments, d.frame, sent));
      }
    case Lose(i) =>
      AllTracedRemove(net, s, actions, t.pending, i);
  }

  lemma NextTraced(net: seq<Node>, s: State, init: seq<Action>, a: Action, t: State) returns (u: State)
    requires ValidNet(net) && IsInitial(net, s) && Exec(net, s, init) == Some(t) && ValidState(net, t)
    requires Enabled(net, t, a) && AllTraced(net, s, init, t.pending)
    ensures u == Next(net, t, a) && AllTraced(net, s, init + [a], u.pending)
  {
    ReachableInv(net, s, init);
    RunIsAccounted(net, s, init);
    u := Next(net, t, a);
    TracedStep(net, s, init, a, t);
  }

  lemma SameTraced(net: seq<Node>, s: State, one: seq<Action>, other: seq<Action>, ds: seq<Delivery>)
    requires ValidNet(net) && ValidState(net, s) && one == other && AllTraced(net, s, one, ds)
    ensures AllTraced(net, s, other, ds)
  {
  }

  /** In every reachable state, every frame under way is one that a host put on a segment, or else a
      good copy of what one delivery of such a frame let an instance receive. */
  lemma {:induction false} ReachableTraced(net: seq<Node>, s: State, actions: seq<Action>) returns (t: State)
    requires ValidNet(net) && IsInitial(net, s) && Exec(net, s, actions).Some?
    ensures Exec(net, s, actions) == Some(t)
    ensures AllTraced(net, s, actions, t.pending)
    decreases |actions|
  {
    if |actions| == 0 {
      t := s;
    } else {
      var init, a := actions[..|actions| - 1], actions[|actions| - 1];
      var before := LastAction(net, s, actions);
      var r := ReachableTraced(net, s, init);
      t := NextTraced(net, s, init, a, r);
      SameTraced(net, s, init + [a], actions, t.pending);
    }
  }

  /** In every reachable state, delivering a frame that a relay has sent only uses that frame up,
      whatever else of it the segment has changed. */
  lemma RelayedIsNeverRelayedAgain(
      net: seq<Node>, s: State, actions: seq<Action>, i: nat, received: seq<byte>, now: real)
    requires ValidNet(net) && IsInitial(net, s) && Exec(net, s, actions).Some?
    requires var t := Exec(net, s, actions).value;
             Enabled(net, t, Deliver(i, received, now)) && t.pending[i].relayed
    ensures var t := Exec(net, s, actions).value;
            Next(net, t, Deliver(i, received, now)) == t.(pending := Remove(t.pending, i))
  {
    ReachableInv(net, s, actions);
    RelayedIsDropped(net, Exec(net, s, actions).value, i, received, now);
  }

  lemma Distribute(h: nat, c: nat)
    ensures (h + 1) * c == h * c + c
  {
  }
}
