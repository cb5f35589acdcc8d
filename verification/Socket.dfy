/** The kernel packet filter, the link-layer destination and the broadcast list of a socket
    (src/socket.rs). */
module Socket {
  import opened Bits
  import opened Net
  import opened Packet

  // ---------------------------------------------------------------- classic BPF

  datatype SockFilter = SockFilter(code: nat, jt: nat, jf: nat, k: nat)

  const BPF_LD := 0x00
  const BPF_B := 0x10
  const BPF_ABS := 0x20
  const BPF_K := 0x00
  const BPF_ALU := 0x04
  const BPF_AND := 0x50
  const BPF_JMP := 0x05
  const BPF_JEQ := 0x10
  const BPF_RET := 0x06

  /** The operation codes of the four kinds of instruction in the program. */
  lemma OperationCodes()
    ensures BPF_LD + BPF_B + BPF_ABS == 0x30 && BPF_ALU + BPF_AND + BPF_K == 0x54
    ensures BPF_JMP + BPF_JEQ + BPF_K == 0x15 && BPF_RET + BPF_K == 0x06
  {
  }

  /** A machine with a program counter and an accumulator, or one that has returned how many bytes of
      the frame to keep. */
  datatype BpfState = Running(pc: nat, a: nat) | Returned(keep: nat)

  /** One instruction. A load beyond the frame, an instruction of another kind and running off the end
      of the program reject the frame. */
  function Step(prog: seq<SockFilter>, frame: seq<byte>, s: BpfState): BpfState {
    match s
    case Returned(_) => s
    case Running(pc, a) =>
      if pc >= |prog| then Returned(0)
      else
        var i := prog[pc];
        if i.code == BPF_LD + BPF_B + BPF_ABS then
          if i.k < |frame| then Running(pc + 1, frame[i.k]) else Returned(0)
        else if i.code == BPF_ALU + BPF_AND + BPF_K then Running(pc + 1, BitAnd(a, i.k))
        else if i.code == BPF_JMP + BPF_JEQ + BPF_K then
          Running(pc + 1 + if a == i.k then i.jt else i.jf, a)
        else if i.code == BPF_RET + BPF_K then Returned(i.k)
        else Returned(0)
  }

  function Steps(prog: seq<SockFilter>, frame: seq<byte>, s: BpfState, n: nat): BpfState
    decreases n
  {
    if n == 0 then s else Steps(prog, frame, Step(prog, frame, s), n - 1)
  }

  /** Jumps only go forward, so every program halts on every frame, after at most one step more than
      it has instructions left. */
  lemma {:induction false} EveryProgramHalts(prog: seq<SockFilter>, frame: seq<byte>, s: BpfState, n: nat)
    requires s.Running? ==> n > 0 && s.pc + n > |prog|
    ensures Steps(prog, frame, s, n).Returned?
    decreases n
  {
    if n == 0 {
    } else {
      EveryProgramHalts(prog, frame, Step(prog, frame, s), n - 1);
    }
  }

  lemma {:induction false} ReturnedStays(prog: seq<SockFilter>, frame: seq<byte>, s: BpfState, n: nat)
    requires s.Returned?
    ensures Steps(prog, frame, s, n) == s
  {
    if n == 0 {
    } else {
      ReturnedStays(prog, frame, s, n - 1);
    }
  }

  lemma {:induction false} StepsAdd(prog: seq<SockFilter>, frame: seq<byte>, s: BpfState, m: nat, n: nat)
    ensures Steps(prog, frame, s, m + n) == Steps(prog, frame, Steps(prog, frame, s, m), n)
    decreases m
  {
    if m == 0 {
    } else {
      StepsAdd(prog, frame, Step(prog, frame, s), m - 1, n);
    }
  }

  lemma TwoSteps(prog: seq<SockFilter>, frame: seq<byte>, s: BpfState)
    ensures Steps(prog, frame, s, 2) == Step(prog, frame, Step(prog, frame, s))
  {
    assert Steps(prog, frame, Step(prog, frame, s), 1) == Step(prog, frame, Step(prog, frame, s));
  }

  /** The number of bytes of the frame that the program keeps. */
  function Keeps(prog: seq<SockFilter>, frame: seq<byte>): nat {
    match Steps(prog, frame, Running(0, 0), |prog| + 1)
    case Returned(keep) => keep
    case Running(_, _) => 0
  }

  function Program(): seq<SockFilter> {
    [
      SockFilter(BPF_LD + BPF_B + BPF_ABS, 0, 0, 0),
      SockFilter(BPF_ALU + BPF_AND + BPF_K, 0, 0, 0xf0),
      SockFilter(BPF_JMP + BPF_JEQ + BPF_K, 0, 8, 0x40),
      SockFilter(BPF_LD + BPF_B + BPF_ABS, 0, 0, 9),
      SockFilter(BPF_JMP + BPF_JEQ + BPF_K, 0, 6, 17),
      SockFilter(BPF_LD + BPF_B + BPF_ABS, 0, 0, 16),
      SockFilter(BPF_ALU + BPF_AND + BPF_K, 0, 0, 0xf0),
      SockFilter(BPF_JMP + BPF_JEQ + BPF_K, 2, 0, 0xe0),
      SockFilter(BPF_LD + BPF_B + BPF_ABS, 0, 0, 19),
      SockFilter(BPF_JMP + BPF_JEQ + BPF_K, 0, 1, 0xff),
      SockFilter(BPF_RET + BPF_K, 0, 0, 262144),
      SockFilter(BPF_RET + BPF_K, 0, 0, 0)
    ]
  }

  lemma TopNibble(b: byte)
    ensures BitAnd(b, 0xf0) == 16 * HighNibble(b)
  {
    assert Pow2(8) == 0x100 && Pow2(4) == 0x10;
    AndHighMask(b, 8, 4);
  }

  /** From instruction 5 on: is the destination multicast or does it end in 255? */
  predicate DestinationPasses(frame: seq<byte>) {
    && |frame| > 16
    && (224 <= frame[16] <= 239 || (|frame| > 19 && frame[19] == 255))
  }

  /** What the program decides, for frames of any length. */
  predicate Passes(frame: seq<byte>) {
    && |frame| > 16 && HighNibble(frame[0]) == 4 && frame[9] == PROTOCOL_UDP
    && DestinationPasses(frame)
  }

  lemma TailOfProgram(frame: seq<byte>, a: nat)
    requires |frame| > 9
    ensures Steps(Program(), frame, Running(5, a), 6)
            == Returned(if DestinationPasses(frame) then 262144 else 0)
  {
    var prog := Program();
    if |frame| > 16 {
      TopNibble(frame[16]);
      var s := Step(prog, frame, Step(prog, frame, Running(5, a)));
      assert s == Running(7, 16 * HighNibble(frame[16]));
      StepsAdd(prog, frame, Running(5, a), 2, 4);
      TwoSteps(prog, frame, Running(5, a));
      MulticastTest(frame, 16 * HighNibble(frame[16]));
    } else {
      ReturnedStays(prog, frame, Returned(0), 5);
    }
  }

  lemma MulticastTest(frame: seq<byte>, a: nat)
    requires |frame| > 16 && a == 16 * HighNibble(frame[16])
    ensures Steps(Program(), frame, Running(7, a), 4)
            == Returned(if DestinationPasses(frame) then 262144 else 0)
  {
    var prog := Program();
    var s := Step(prog, frame, Running(7, a));
    if a == 0xe0 {
      assert s == Running(10, a);
      assert Step(prog, frame, s) == Returned(262144);
      ReturnedStays(prog, frame, Returned(262144), 2);
    } else {
      assert s == Running(8, a);
      LastOctetTest(frame, a);
    }
  }

  lemma LastOctetTest(frame: seq<byte>, a: nat)
    ensures Steps(Program(), frame, Running(8, a), 3)
            == Returned(if |frame| > 19 && frame[19] == 255 then 262144 else 0)
  {
    var prog := Program();
    var s := Step(prog, frame, Running(8, a));
    if |frame| > 19 {
      var t := Step(prog, frame, s);
      assert t == Running(if frame[19] == 255 then 10 else 11, frame[19]);
      TwoSteps(prog, frame, s);
    } else {
      ReturnedStays(prog, frame, Returned(0), 2);
    }
  }

  /** From instruction 3 on: UDP to a passing destination. */
  lemma ProtocolTest(frame: seq<byte>, a: nat)
    ensures Steps(Program(), frame, Running(3, a), 8)
            == Returned(if |frame| > 9 && frame[9] == 17 && DestinationPasses(frame) then 262144 else 0)
  {
    var prog := Program();
    var s := Step(prog, frame, Running(3, a));
    if |frame| > 9 {
      var t := Step(prog, frame, s);
      StepsAdd(prog, frame, Running(3, a), 2, 6);
      TwoSteps(prog, frame, Running(3, a));
      if frame[9] == 17 {
        assert t == Running(5, frame[9]);
        TailOfProgram(frame, frame[9]);
      } else {
        assert t == Running(11, frame[9]);
        assert Step(prog, frame, t) == Returned(0);
        ReturnedStays(prog, frame, Returned(0), 5);
      }
    } else {
      ReturnedStays(prog, frame, Returned(0), 7);
    }
  }

  /** The filter keeps the whole frame exactly when it is an IPv4 UDP frame to a multicast address or
      one ending in 255, and drops it otherwise; the offsets are those of the IP header. */
  lemma ProgramMeaning(frame: seq<byte>)
    ensures Keeps(Program(), frame) == if Passes(frame) then 262144 else 0
  {
    var prog := Program();
    var start := Running(0, 0);
    if |frame| > 0 {
      TopNibble(frame[0]);
      var s := Step(prog, frame, Step(prog, frame, start));
      assert s == Running(2, 16 * HighNibble(frame[0]));
      TwoSteps(prog, frame, start);
      StepsAdd(prog, frame, start, 2, 11);
      VersionTest(frame, 16 * HighNibble(frame[0]));
    } else {
      assert Step(prog, frame, start) == Returned(0);
      ReturnedStays(prog, frame, Returned(0), 12);
    }
  }

  lemma VersionTest(frame: seq<byte>, a: nat)
    requires |frame| > 0 && a == 16 * HighNibble(frame[0])
    ensures Steps(Program(), frame, Running(2, a), 11) == Returned(if Passes(frame) then 262144 else 0)
  {
    var prog := Program();
    var s := Step(prog, frame, Running(2, a));
    if a == 0x40 {
      assert s == Running(3, a);
      StepsAdd(prog, frame, s, 8, 2);
      ProtocolTest(frame, a);
      ReturnedStays(prog, frame, Steps(prog, frame, s, 8), 2);
    } else {
      assert s == Running(11, a);
      assert Step(prog, frame, s) == Returned(0);
      ReturnedStays(prog, frame, Returned(0), 9);
    }
  }

  /** On frames that hold a whole minimal header the filter agrees with the parser's own test. */
  lemma ProgramAgreesWithIsBroadcast(frame: seq<byte>)
    requires |frame| >= 20
    ensures Keeps(Program(), frame) > 0
            <==> HighNibble(frame[0]) == 4 && frame[9] == PROTOCOL_UDP && IsBroadcast(AddrAt(frame, 16))
  {
    ProgramMeaning(frame);
  }

  /** The frame that reaches the socket: cut to what the filter keeps. */
  function Delivered(frame: seq<byte>): Option<seq<byte>> {
    var keep := Keeps(Program(), frame);
    if keep == 0 then None else if keep < |frame| then Some(frame[..keep]) else Some(frame)
  }

  /** Which frames reach the socket, and how much of them. */
  lemma FilterMeaning(frame: seq<byte>)
    ensures Delivered(frame) ==
            if |frame| > 16 && 0x40 <= frame[0] <= 0x4F && frame[9] == 17
               && (224 <= frame[16] <= 239 || (|frame| > 19 && frame[19] == 255))
            then Some(if |frame| <= 262144 then frame else frame[..262144])
            else None
  {
    ProgramMeaning(frame);
  }

  /** The filter never hides a packet that the parser would accept, and shortens only frames longer
      than any that exists. */
  lemma FilterKeepsAccepted(frame: seq<byte>)
    requires ExtractPacketInfo(frame).Some?
    ensures Delivered(frame) == Some(if |frame| <= 262144 then frame else frame[..262144])
  {
    ExtractIff(frame);
    ProgramAgreesWithIsBroadcast(frame);
    ProgramMeaning(frame);
  }

  // ---------------------------------------------------------------- link-layer destination

  const BROADCAST_MAC: seq<byte> := [0xff, 0xff, 0xff, 0xff, 0xff, 0xff, 0, 0]

  /** The destination hardware address, padded to eight bytes (section 6.4 of RFC 1112). */
  function DestMac(data: seq<byte>): (mac: seq<byte>)
    ensures |mac| == 8
  {
    if |data| >= 20 && 224 <= data[16] <= 239 then
      [0x01, 0x00, 0x5e, BitAnd(data[17], 0x7f), data[18], data[19], 0, 0]
    else BROADCAST_MAC
  }

  /** The six bytes of a hardware address as a number. */
  function MacNumber(mac: seq<byte>): nat
    requires |mac| == 8
  {
    0x100_0000_0000 * (mac[0] as int) + 0x1_0000_0000 * (mac[1] as int) + 0x100_0000 * (mac[2] as int)
    + 0x1_0000 * (mac[3] as int) + 0x100 * (mac[4] as int) + mac[5]
  }

  /** The frame has a destination address and that is a multicast group. */
  predicate ToGroup(p: seq<byte>) {
    |p| >= 20 && AddrAt(p, 16).IsMulticast()
  }

  /** The low 23 bits of a multicast destination are placed in the low bits of 01-00-5E-00-00-00; every
      other frame, too short ones included, gets the broadcast address. */
  lemma DestMacMeaning(p: seq<byte>)
    ensures var mac := DestMac(p);
            && (ToGroup(p) ==> MacNumber(mac) == 0x0100_5E00_0000 + AddrAt(p, 16).U32() % 0x80_0000)
            && (!ToGroup(p) ==> MacNumber(mac) == 0xFFFF_FFFF_FFFF)
            && mac[6..] == [0, 0]
  {
    if |p| >= 20 {
      LowSevenBits(p[17]);
      LowBitsOfAddress(AddrAt(p, 16));
    }
  }

  /** So a frame gets a multicast hardware address exactly when its destination is multicast, and two
      groups share one exactly when their low 23 bits agree. */
  lemma DestMacShared(p: seq<byte>, q: seq<byte>)
    ensures DestMac(p)[..3] == [0x01, 0x00, 0x5e] <==> ToGroup(p)
    ensures ToGroup(p) && ToGroup(q) ==>
              (DestMac(p) == DestMac(q)
               <==> AddrAt(p, 16).U32() % 0x80_0000 == AddrAt(q, 16).U32() % 0x80_0000)
  {
    assert BROADCAST_MAC[..3][0] == 0xff;
    DestMacMeaning(p);
    DestMacMeaning(q);
    if MacNumber(DestMac(p)) == MacNumber(DestMac(q)) {
      MacNumberInjective(DestMac(p), DestMac(q));
    }
  }

  lemma MacNumberInjective(m: seq<byte>, n: seq<byte>)
    requires |m| == |n| == 8 && m[6..] == n[6..] && MacNumber(m) == MacNumber(n)
    ensures m == n
  {
    assert m[0] == n[0];
    assert m[1] == n[1];
    assert m[2] == n[2];
    assert m[3] == n[3];
    assert m[4] == n[4];
    assert m[6] == m[6..][0] && m[7] == m[6..][1];
    assert n[6] == n[6..][0] && n[7] == n[6..][1];
  }

  lemma LowSevenBits(b: byte)
    ensures BitAnd(b, 0x7f) == b % 0x80
  {
    assert Pow2(7) == 0x80;
    AndLowMask(b, 7);
  }

  lemma LowBitsOfAddress(a: Ipv4Addr)
    ensures a.U32() % 0x80_0000 == 0x1_0000 * (a.o1 as int % 0x80) + 0x100 * (a.o2 as int) + a.o3
  {
    var q, r := a.o1 as int / 0x80, a.o1 as int % 0x80;
    DivModUnique(a.U32(), 0x80_0000, 2 * (a.o0 as int) + q, 0x1_0000 * r + 0x100 * (a.o2 as int) + a.o3);
  }

  // ---------------------------------------------------------------- broadcast addresses

  /** One entry of the operating system's interface list. */
  datatype IfAddr = IfAddr(interfaceName: string, broadcast: Option<Ipv4Addr>)

  predicate Entry(ifname: string, e: IfAddr, a: Ipv4Addr) {
    e.interfaceName == ifname && e.broadcast == Some(a)
  }

  /** Some entry of the interface has this broadcast address. */
  predicate Configured(ifname: string, entries: seq<IfAddr>, a: Ipv4Addr) {
    exists i :: 0 <= i < |entries| && Entry(ifname, entries[i], a)
  }

  /** The listing names `a` for the interface before it first names `b`. */
  predicate NamedBefore(ifname: string, entries: seq<IfAddr>, a: Ipv4Addr, b: Ipv4Addr) {
    exists i :: 0 <= i < |entries| && Entry(ifname, entries[i], a)
                && forall j | 0 <= j <= i :: !Entry(ifname, entries[j], b)
  }

  /** The configured addresses, each once, in the order in which the listing first names them. */
  ghost predicate IsBroadcastList(ifname: string, entries: seq<IfAddr>, addrs: seq<Ipv4Addr>) {
    && (forall a :: a in addrs <==> Configured(ifname, entries, a))
    && (forall i, j | 0 <= i < j < |addrs| :: NamedBefore(ifname, entries, addrs[i], addrs[j]))
  }

  /** An address named before another differs from it, so a broadcast list has no duplicates. */
  lemma BroadcastListHasNoDuplicates(ifname: string, entries: seq<IfAddr>, addrs: seq<Ipv4Addr>)
    requires IsBroadcastList(ifname, entries, addrs)
    ensures forall i, j | 0 <= i < j < |addrs| :: addrs[i] != addrs[j]
  {
    forall i, j | 0 <= i < j < |addrs|
      ensures addrs[i] != addrs[j]
    {
      assert NamedBefore(ifname, entries, addrs[i], addrs[j]);
    }
  }

  lemma NamedBeforeExtends(ifname: string, entries: seq<IfAddr>, more: seq<IfAddr>, a: Ipv4Addr, b: Ipv4Addr)
    requires entries <= more
    requires || NamedBefore(ifname, entries, a, b)
             || (Configured(ifname, entries, a) && !Configured(ifname, entries, b))
    ensures NamedBefore(ifname, more, a, b)
  {
    var i :| 0 <= i < |entries| && Entry(ifname, entries[i], a)
             && forall j | 0 <= j <= i :: !Entry(ifname, entries[j], b);
    assert more[i] == entries[i];
    assert forall j | 0 <= j <= i :: more[j] == entries[j];
  }

  /** The list after one more entry: its address joins unless it is there already. */
  function WithEntry(ifname: string, addrs: seq<Ipv4Addr>, e: IfAddr): seq<Ipv4Addr> {
    if e.interfaceName == ifname && e.broadcast.Some? && e.broadcast.value !in addrs
    then addrs + [e.broadcast.value]
    else addrs
  }

  function BroadcastList(ifname: string, entries: seq<IfAddr>): seq<Ipv4Addr> {
    if |entries| == 0 then []
    else WithEntry(ifname, BroadcastList(ifname, entries[..|entries| - 1]), entries[|entries| - 1])
  }

  lemma WithEntryExtends(ifname: string, entries: seq<IfAddr>, e: IfAddr, addrs: seq<Ipv4Addr>)
    requires IsBroadcastList(ifname, entries, addrs)
    ensures IsBroadcastList(ifname, entries + [e], WithEntry(ifname, addrs, e))
  {
    var more, addrs' := entries + [e], WithEntry(ifname, addrs, e);
    assert more[|entries|] == e && forall i | 0 <= i < |entries| :: more[i] == entries[i];
    forall a
      ensures a in addrs' <==> Configured(ifname, more, a)
    {
      assert Configured(ifname, more, a) <==> Configured(ifname, entries, a) || Entry(ifname, e, a);
    }
    forall i, j | 0 <= i < j < |addrs'|
      ensures NamedBefore(ifname, more, addrs'[i], addrs'[j])
    {
      assert addrs'[i] == addrs[i] && addrs[i] in addrs;
      NamedBeforeExtends(ifname, entries, more, addrs'[i], addrs'[j]);
    }
  }

  /** The collected list is the configured addresses, each once, in the order of the listing; the
      first of them is the address that limited broadcasts are rewritten to. */
  lemma {:induction false} BroadcastListMeaning(ifname: string, entries: seq<IfAddr>)
    ensures IsBroadcastList(ifname, entries, BroadcastList(ifname, entries))
  {
    if |entries| == 0 {
    } else {
      var init, e := entries[..|entries| - 1], entries[|entries| - 1];
      BroadcastListMeaning(ifname, init);
      WithEntryExtends(ifname, init, e, BroadcastList(ifname, init));
      assert init + [e] == entries;
    }
  }

  /** Collect the broadcast addresses of an interface; `listing` is None when the operating system
      gives no list. Without any configured address the limited broadcast address stands in, so that
      the list is never empty. */
  method CollectBroadcastAddrs(ifname: string, listing: Option<seq<IfAddr>>) returns (addrs: seq<Ipv4Addr>)
    ensures addrs != []
    ensures var collected := BroadcastList(ifname, if listing.Some? then listing.value else []);
            addrs == if collected == [] then [LIMITED_BROADCAST] else collected
  {
    addrs := [];
    if listing.Some? {
      var entries := listing.value;
      for i := 0 to |entries|
        invariant addrs == BroadcastList(ifname, entries[..i])
      {
        var e := entries[i];
        assert entries[..i + 1][..i] == entries[..i];
        if e.interfaceName == ifname && e.broadcast.Some? && e.broadcast.value !in addrs {
          addrs := addrs + [e.broadcast.value];
        }
      }
      assert entries[..|entries|] == entries;
    }
    if addrs == [] {
      addrs := [LIMITED_BROADCAST];
    }
  }
}
