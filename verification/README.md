# BCR, modelled and proved in Dafny

BCR relays UDP broadcast and multicast packets between network interfaces. A received packet passes a
loop check, a parser, a first-match rule list and an optional token bucket; a copy is then rewritten in
place for every output (addresses, ports, loop marker, IP and UDP checksum) and sent. This project
models that path and the parts around it, and proves what they promise over every packet, every
configuration, every trace and every network of relays.

`dafny verify dfyconfig.toml` checks the whole project.

## What is modelled

| file | models |
|---|---|
| `Bits.dfy`, `Net.dfy` | unsigned integers by binary digits, bytes, 16-bit words, IPv4 addresses |
| `Checksum.dfy` | the Internet checksum of RFC 1071 |
| `Config.dfy`, `Filter.dfy` | rules and matching (`src/config.rs`), first match with default deny (`src/filter.rs`) |
| `Text.dfy` | the string operations the parser uses: splitting, trimming, lines, numbers, dotted quads |
| `ConfigParser.dfy`, `ConfigPrinter.dfy` | the strict parser, the rules it can produce, a printer it inverts |
| `ConfigGrammar.dfy` | the exact language of the parser |
| `Subnets.dfy` | what the tests for a last octet of 255 mean for subnets |
| `Packet.dfy` | header validation, packet information, the loop check (`src/packet.rs`) |
| `Nat.dfy`, `NatProofs.dfy` | in-place rewriting on an array, and what it guarantees (`src/nat.rs`) |
| `RateLimit.dfy` | the token bucket as a class and over whole runs (`src/ratelimit.rs`) |
| `Socket.dfy` | the BPF program and a machine for it, hardware addresses, the broadcast list (`src/socket.rs`) |
| `Machine.dfy` | traces of deterministic machines in general |
| `Relay.dfy`, `RelayProofs.dfy` | the relay loop as a class with two reused buffers, and its traces (`src/relay.rs`) |
| `Network.dfy` | any number of instances on shared segments, in any topology |
| `Examples.dfy` | single packets and lines at which the documentation and the code differ |

Code that updates things in place (`apply_nat`, the limiter, the relay loop, the loops of the parser
and of the broadcast list) is a method on an array or on fields, proved equal to a function on values;
the properties are lemmas about that function. Pure code is functions.

Assumptions:

- Field access and checksums of the packet library agree with section 3.1 of RFC 791, RFC 768 and
  RFC 1071; its payload accessor stops at the declared total length.
- The limiter works on real numbers. A clock reading before the last one counts as no elapsed time;
  results about windows and losses assume a clock that does not go back.
- Receiving is an input trace with the clock reading at each packet, sending an output trace. The
  kernel's interface list is an argument.
- In a network, a segment may lose a frame, delay it and damage anything behind its header, and
  delivers it to every input socket attached, the sender's own included.

## What turned out not to hold

- `README.md:209` says that every relayed packet carries a valid UDP checksum. `NatProofs.UdpChecksumCorrect`
  gives the exact condition, for every packet with a UDP header. It can fail in three ways. The relay
  sums the whole received buffer and puts its length into the pseudo-header, so bytes behind the
  datagram, as short Ethernet frames have, spoil the sum (`NatProofs.ZeroPaddingSpoilsUdpChecksum`, with
  the frame `Examples.PaddedFrameExample`). The UDP length is never compared with the IP total length,
  so a packet may declare a datagram that its receiver does not find (`Examples.OverlongDatagramExample`).
  And the fragment fields are not read, so the data of a later fragment is taken for a UDP header and
  partly overwritten (`Examples.FragmentExample`).
- Where the sum comes out right, the field may still hold zero, which means that there is no checksum:
  `NatProofs.UdpChecksumZeroIff`, with the packet `Examples.ZeroChecksumExample`.
- `README.md:135` offers subnet-directed broadcasts. A packet to one that the output owns is relayed
  exactly when the address ends in 255 (`RelayProofs.OwnedDirectedServedIff`), so one to 192.168.1.127
  in a /25 is not (`Examples.HalfSubnetExample`). As a test for the directed broadcast of a subnet,
  `directed` is right exactly in those with a prefix of at least 24 bits whose last address ends in 255
  (`Subnets.DirectedExactIff`): in larger ones it also matches hosts (`Examples.DirectedHostExample`),
  and multicast addresses that end in 255 it matches too (`Examples.DirectedMulticastExample`).
- `README.md:181-183` says that packets are rejected whose source is not a valid unicast address. Under
  that same condition on the subnet, and no other, the parser does so and rejects nothing else
  (`Subnets.SourceExactIff`): it rejects hosts of larger subnets (`Examples.RejectedHostExample`) and
  accepts broadcast addresses of smaller ones (`Examples.BroadcastSourceExample`).
- `README.md:111` writes ports as optional. A rule of that grammar is accepted exactly when both are
  there and valid (`ConfigGrammar.PortsAreMandatory`, `Examples.PortlessRuleExample`).
- `README.md:154-155` offers DHCP. A packet to 255.255.255.255 is relayed exactly when its source is
  not 0.0.0.0, not multicast and does not end in 255 (`RelayProofs.LimitedServedIff`), so that of a
  client without an address is not
  (`RelayProofs.UnspecifiedSourceIsNeverRelayed`, `Examples.DhcpExample`).

## Model

| member | source | states |
|---|---|---|
| `Network.NetworkIsLoopFree` | src/relay.rs:100-147 | in every run of every network, with cycles and inputs that hear their own output: no host frame is relayed twice from one input to one output socket, and relayings and deliveries stay within bounds that the network and the number of host frames fix |
| `Network.RelayedIsNeverRelayedAgain` | src/relay.rs:66-69 | in every reachable state, delivering a frame that a relay has sent uses it up: nothing is sent, no limiter is asked, whatever the segment did to the bytes behind the header |
| `Network.DeliverMeaning` | src/relay.rs:99-145 | on receiving a frame, what the instance sends comes under way, marked as relayed, to every input on the segment of each output and to no other; the relaying is recorded, its limiter moves on, the received frame is used up and all others stay under way |
| `Network.HostSendMeaning` | README.md:201-204 | a host frame comes under way to every input on its segment, once each, and to no other |
| `Network.LoseMeaning` | README.md:193-204 | hosts can always send, every frame under way can be lost or delivered, and a loss changes nothing else |
| `Examples.CycleExample` | README.md:201-204 | two instances in a cycle have a run in which a relayed frame is under way to the other instance |
| `Network.NextCounts` | README.md:193-204 | every delivery and every loss decreases a measure; only a host frame raises it, by at most what one frame can be worth |
| `Network.NextKeepsInv` | src/nat.rs:33-38 | every step keeps it: sent frames carry the marker, no host frame is under way twice to one input or relayed twice |
| `Network.MarkedIsDropped` | src/packet.rs:118-133 | a marked frame whose header arrives intact is dropped by any instance, without touching its limiter |
| `Network.ReachableTraced` | src/relay.rs:110-133 | in every reachable state, every frame under way is one that a host put on the segment it travels on, or a good copy (length, marker, checksums) that the instance receiving such a host frame made of what it received for one output, on the segment of that output |
| `Network.SegmentReaches` | README.md:201-204 | a frame put on a segment is delivered to an input socket iff that socket is attached to it, the sender's own included |
| `Network.SegmentListeners` | src/relay.rs:49-54 | and to each at most once |
| `Relay.Relay.Run` | src/relay.rs:25-149 | the loop over any rounds, with one receive and one send buffer reused throughout, has the effect of handling one packet value after another |
| `RelayProofs.EventsAreReceptions` | src/relay.rs:48-67 | the events of a run are its receptions: one for every frame that a socket gives in a round, with that socket's interface, frame and time, in the order of rounds and sockets, and no others |
| `RelayProofs.NothingIsSentBack` | src/relay.rs:166-174 | in any run every frame sent is the copy of a reception, and goes to an output on another interface than it came in on |
| `Relay.PacketsAreWhole` | src/relay.rs:26-31 | no packet of up to 65535 bytes is cut by the receive buffer |
| `Relay.Relay.RelayToOutputs` | src/relay.rs:99-145 | the fan-out through the one send buffer sends the copies that belong to the received bytes and leaves the receive buffer unchanged, whatever either held before |
| `Relay.Relay.HandlePacket` | src/relay.rs:64-146 | one packet's effect on limiter and output is that of the pure step, stale bytes behind the packet having no influence |
| `Relay.Relay.ServeRound` | src/relay.rs:48-147 | one round reads every ready socket once, in order, and has the effect of those packets |
| `RelayProofs.AcceptedNeverFails` | src/relay.rs:96-130 | for an accepted packet the rule lookup succeeds again and rewriting succeeds, for all options and targets |
| `RelayProofs.AdmittedReachesItsOutputs` | src/relay.rs:99-145 | an admitted packet is sent to exactly the outputs it should be relayed to |
| `RelayProofs.ServedIff` | src/relay.rs:64-145 | for every event, limiter and output: the output gets the packet iff its bytes are those of a complete UDP packet without time to live 1 and identification 0xBCBC, the rules allow it, the limiter admits it, the source is not 0.0.0.0, not multicast and does not end in 255, it came in elsewhere, and it goes to a multicast group, 255.255.255.255 or an owned address ending in 255 |
| `Examples.UnmarkedExample` | src/nat.rs:152-160 | an SSDP packet with time to live 1 and another identification is relayed |
| `RelayProofs.OwnedDirectedServedIff` | src/packet.rs:93-97 | a packet offered to an address that is neither multicast nor 255.255.255.255 and that the output owns as a broadcast address is relayed there iff the address ends in 255 |
| `Examples.HalfSubnetExample` | README.md:134-136 | a packet to 192.168.1.127 is not relayed to an interface that owns this address, although all rules allow it |
| `RelayProofs.LimitedServedIff` | src/packet.rs:61-69 | a packet offered to 255.255.255.255 is relayed to another interface iff its source is not 0.0.0.0, not multicast and does not end in 255 |
| `Subnets.SourceExactIff` | README.md:181-183 | the parser tells hosts from broadcast, multicast and unspecified sources in a subnet with n <= 30 leading bits iff n >= 24 and its last address ends in 255 |
| `Examples.RejectedHostExample` | README.md:181-183 | a packet from 10.0.1.255, a host of 10.0.0.0/16, is not relayed, although all rules allow it |
| `Examples.BroadcastSourceExample` | README.md:181-183 | a packet from 192.168.1.127, the broadcast address of 192.168.1.0/25, is relayed |
| `Examples.DhcpExample` | README.md:154-155 | a DHCP client's packet from 0.0.0.0 is not relayed, although all rules allow it |
| `Subnets.DirectedExactIff` | README.md:134-136 | in the subnet with n <= 30 leading bits of any address that is not multicast, what `directed` accepts is exactly the directed broadcast address iff n >= 24 and the last address of the subnet ends in 255 |
| `Subnets.DirectedRuleIff` | src/config.rs:132-140 | a parsed `directed` rule asks nothing else of the destination address than that it ends in 255 and is not 255.255.255.255 |
| `Subnets.LastOctetOfBroadcast` | src/packet.rs:93-97 | up to /24 a subnet's last address ends in 255; from /24 on an address that ends in 255 is the last of its subnet |
| `Examples.DirectedHostExample` | src/config.rs:135-139 | a `directed` rule allows a packet to 10.0.1.255, a host of 10.0.0.0/16 |
| `Examples.DirectedMulticastExample` | src/config.rs:135-139 | a packet to the group 239.0.0.255 is relayed under the rule `allow any any:any directed:any` |
| `RelayProofs.HandleCopies` | src/relay.rs:64-145 | an event sends, if accepted and admitted, each existing copy once, in output order and with the hardware address of its destination, and otherwise nothing |
| `RelayProofs.SentAreCopies` | src/relay.rs:110-133 | every frame sent in any trace is the copy of one received packet for one output |
| `RelayProofs.CopyOfIsGood` | README.md:186-190 | every frame sent has the length of the packet received, the marker and a verifying IP checksum, and its datagram verifies at the receiver iff the packet received was intact: no fragment, lengths that agree with the IP total length, and padding neutral for the sum |
| `RelayProofs.CopyFollowsRule` | src/relay.rs:96-133 | the deciding rule allows the packet, and each copy carries the source, destination and ports that this rule's options and the output's addresses give it, every other byte but marker and checksums being as received |
| `RelayProofs.DestinationCorrect` | src/relay.rs:166-197 | an output gets a copy iff it is not the ingress and the destination is multicast, 255.255.255.255 or one of its broadcast addresses; without `dnat` the final destination is the multicast group, the owned address or the primary broadcast address |
| `RelayProofs.RejectedTrafficIsInvisible` | src/relay.rs:66-83 | deleting all marked, malformed and denied packets from any trace changes neither frames sent nor limiter |
| `Machine.FilterMeaning` | src/relay.rs:66-83 | the events kept are those at the places where the condition holds, all of them and in order |
| `RelayProofs.KernelFilterIsInvisible` | src/socket.rs:79-87 | for any trace the relay sends the same frames behind the kernel filter as without it |
| `RelayProofs.ThroughFilterMeaning` | src/socket.rs:79-87 | the trace behind the filter holds what the filter delivers of each frame it lets through, in order |
| `RelayProofs.SentInWindow` | src/relay.rs:85-94 | what is sent for any window of a trace is what an unlimited relay sends for some of its events, in order and each at most once per output, and these are at most as many as the limiter allows in the time of the window |
| `RelayProofs.SentByAdmission` | src/relay.rs:85-94 | the limiter sees exactly the accepted packets, and frames number at most outputs times packets admitted |
| `RelayProofs.IdleLimiterIsInvisible` | src/relay.rs:85-94 | a limiter that refuses no accepted packet of a trace changes nothing that is sent |
| `RelayProofs.ConformingTrafficLosesNothing` | src/ratelimit.rs:9-12 | a limiter that starts full costs no frame in a trace whose accepted packets conform to its rate and burst |
| `RelayProofs.UnspecifiedSourceIsNeverRelayed` | src/packet.rs:61-69 | a packet whose source bytes are 0, 0, 0, 0 has no effect, whatever the rules |
| `Nat.ApplyNat` | src/nat.rs:11-58 | in-place rewriting of a slice leaves the bytes of the rewriting function, reports its outcome, and touches nothing outside the slice; a packet without room for a UDP header fails after its IP header was edited |
| `Nat.ApplyUdpNat` | src/nat.rs:60-88 | ports and UDP checksum in place, or failure exactly when fewer than eight bytes follow the header |
| `Nat.EditIpHeader` | src/nat.rs:22-38 | source, destination, TTL and identification in place |
| `NatProofs.HeaderChecksumCorrect` | src/nat.rs:52-57 | every rewritten packet, of any header length, has IP header words that fold to 0xFFFF |
| `NatProofs.UdpChecksumCorrect` | src/nat.rs:60-88 | for every packet with a UDP header: the relayed datagram verifies at its receiver iff the packet is no fragment, the UDP length is at least 8 and fits the IP total length, which fits the bytes received, and the bytes behind the datagram are neutral for the sum; an unpadded, unfragmented datagram always does |
| `NatProofs.ZeroPaddingSpoilsUdpChecksum` | src/nat.rs:67-85 | zero padding of 1 to 65534 bytes always makes the relayed UDP checksum wrong |
| `Examples.PaddedFrameExample` | src/nat.rs:84-85 | an accepted 28-byte packet in a 46-byte frame is relayed with a UDP checksum that does not verify |
| `Examples.OverlongDatagramExample` | src/packet.rs:46-53 | an accepted 28-byte packet that declares a 26-byte datagram is relayed, and does not verify |
| `Examples.FragmentExample` | src/packet.rs:71-86 | the last fragment of a datagram is relayed, and two bytes of its data are overwritten with a checksum |
| `NatProofs.UdpChecksumZeroIff` | src/nat.rs:84-85 | a relayed packet's UDP checksum field is zero iff the addresses and ports it leaves with, the length behind the IP header, the UDP length and the data received sum to a multiple of 65535 |
| `Examples.ZeroChecksumExample` | src/nat.rs:138-150 | an intact datagram is relayed with zero in that field |
| `NatProofs.FieldsAfterRewrite` | src/nat.rs:22-44 | the rewritten packet is recognised as relayed and has the chosen source and destination |
| `NatProofs.PortsAfterRewrite` | src/nat.rs:70-76 | its ports are the chosen ones and its UDP length is unchanged |
| `NatProofs.RewriteFrame` | src/nat.rs:16-88 | only the named fields change: ports and UDP checksum for UDP only, checksums only on success, nothing for a malformed header; options and payload survive for every header length |
| `NatProofs.RewriteIdempotent` | src/nat.rs:11-58 | rewriting twice with the same options gives the same bytes as once |
| `NatProofs.AccumulatorFits` | src/relay.rs:26-31 | both checksum sums stay below 2^32 for buffers of up to 65536 bytes |
| `NatProofs.WordSumWithPadding` | src/nat.rs:84-84 | what bytes behind a datagram add to the sum, at even and odd offsets |
| `Checksum.Fold` | src/nat.rs:54-54 | folding keeps the residue modulo 65535 and is zero only for zero (section 2 of RFC 1071) |
| `Checksum.ComplementVerifies` | src/nat.rs:84-85 | a sum completed by its complement folds to all ones, and one that falls short by `d` does iff `d` is a multiple of 65535 |
| `Packet.ExtractIff` | src/packet.rs:39-89 | a packet is accepted iff it is a complete UDP packet to a multicast address or one ending in 255, and from an address that is neither of these nor 0.0.0.0; then these fields are reported |
| `Packet.HeaderIff` | src/packet.rs:21-35 | a header is valid iff its first byte spells version 4 and 5 to 15 words that fit the buffer |
| `Packet.DirectedNeeds255` | src/packet.rs:93-97 | a directed broadcast is recognised iff it ends in 255 |
| `Packet.MarkerDependsOnHeaderOnly` | src/packet.rs:121-133 | the loop check depends on the header alone |
| `Packet.MarkerIff` | src/packet.rs:121-133 | the loop check holds iff the header is well formed, byte 8 is 1 and bytes 4 and 5 are 0xBC |
| `RateLimit.RateLimiter.Allow` | src/ratelimit.rs:35-48 | refill, cap, then take a token if there is one: decision and new state are those of the bucket step |
| `RateLimit.RateLimiter.constructor` | src/ratelimit.rs:23-31 | a new limiter is full, its burst at least one |
| `RateLimit.TokensStayInBounds` | src/ratelimit.rs:40-44 | in every run, whatever the clock does, tokens stay between zero and the burst |
| `RateLimit.ClockGoesBack` | src/ratelimit.rs:36-40 | a clock reading before the last one gives no tokens and takes none, and becomes the last one |
| `RateLimit.WindowBound` | src/ratelimit.rs:10-12 | in any window of any run, accepted calls number at most burst plus rate times its length |
| `RateLimit.LosslessIffConforming` | src/ratelimit.rs:35-48 | a limiter that starts full refuses nothing iff every window of the arrivals conforms to its rate and burst |
| `RateLimit.NewLimiterLossless` | src/ratelimit.rs:21-31 | the same for a newly created limiter in terms of its arguments, a burst of zero counting as one |
| `RateLimit.GreedyIsOptimal` | src/ratelimit.rs:42-47 | no choice of arrivals that an identical bucket could admit gets ahead of the limiter in any prefix |
| `RateLimit.DecisionsAreAdmissible` | src/ratelimit.rs:42-47 | the limiter's own decisions are such a choice |
| `RateLimit.RefusedCallsLeaveNoTrace` | src/ratelimit.rs:36-40 | replaying only the accepted calls refuses nothing and ends at the same level: a second identical limiter behind the first drops nothing |
| `Socket.EveryProgramHalts` | src/socket.rs:141-177 | every BPF program halts on every frame within one step more than it has instructions left |
| `Socket.ProgramMeaning` | src/socket.rs:152-177 | the filter keeps the whole frame iff it is IPv4 UDP to a multicast address or one ending in 255, for frames of any length, and drops it otherwise |
| `Socket.FilterMeaning` | src/socket.rs:127-139 | on bytes, which frames reach the socket and how much of them |
| `Socket.OperationCodes` | src/socket.rs:142-150 | the four operation codes of the program as numbers |
| `Socket.ProgramAgreesWithIsBroadcast` | src/socket.rs:127-139 | on frames of at least 20 bytes it agrees with version, protocol and the parser's broadcast test |
| `Socket.FilterKeepsAccepted` | src/socket.rs:79-87 | it hides no packet that the parser accepts and shortens none of up to 262144 bytes |
| `Socket.DestMacMeaning` | src/socket.rs:209-217 | a multicast destination gets 01-00-5E-00-00-00 plus its low 23 bits, every other one the broadcast address (section 6.4 of RFC 1112) |
| `Socket.DestMacShared` | src/socket.rs:198-207 | a hardware address is multicast iff the destination is, and two groups share one iff their low 23 bits agree |
| `Socket.CollectBroadcastAddrs` | src/socket.rs:88-104 | the loop collects the broadcast list, or the limited broadcast address when it is empty |
| `Socket.BroadcastListMeaning` | src/socket.rs:94-98 | the list holds exactly the configured addresses of the interface, in the order the listing first names them |
| `Socket.BroadcastListHasNoDuplicates` | src/socket.rs:96-98 | such a list names no address twice |
| `Config.CidrIsInterval` | src/config.rs:301-326 | `addr/n` matches exactly the block of 2^(32-n) addresses around `addr`, equivalently those with the same quotient (section 3.1 of RFC 4632) |
| `Config.CidrNestedOrDisjoint` | src/config.rs:36-43 | two prefix matchers are nested or share no address |
| `Config.PrefixMaskValue` | src/config.rs:317-321 | the shifted mask is 2^32 minus the block size, for /0 to /32 |
| `Filter.RelayedIffDecidedByAllow` | src/filter.rs:13-27 | a packet is relayed iff the first matching rule exists and allows, and the second lookup returns that rule |
| `Filter.FindMatchDecides` | src/config.rs:150-153 | the scan finds a rule iff one matches, and then the first |
| `Filter.TrailingDenyIsRedundant` | README.md:114-116 | a trailing rule that denies changes no decision |
| `Filter.CoveredRuleIsRedundant` | src/config.rs:150-153 | deleting a rule covered by earlier ones changes neither decisions nor rewriting |
| `ConfigPrinter.ConfigRoundTrip` | src/config.rs:178-204 | printing any list of well-formed rules and parsing the text gives exactly that list |
| `ConfigPrinter.UnterminatedRoundTrip` | src/config.rs:182-203 | the same for the text without its last line feed |
| `ConfigPrinter.ParserImage` | src/config.rs:207-282 | a rule is well formed iff some line denotes it |
| `ConfigPrinter.ParsedRuleWellFormed` | src/config.rs:263-384 | ordered ranges, prefix masks, no NAT on deny, `Limited` iff Exact 255.255.255.255, `Directed` only with Any |
| `ConfigPrinter.RuleRoundTrip` | README.md:110-136 | every well-formed rule has a line that parses to it |
| `ConfigGrammar.RuleIffSpelled` | src/config.rs:207-384 | a line denotes a rule iff its words spell it: keywords, canonical addresses, prefix lengths to 32, ordered port ranges, known options of which the last of each kind counts, none on deny |
| `ConfigGrammar.OptionsIffSpelled` | src/config.rs:234-258 | words are accepted as these options iff each spells a known option and each field is given by the last word of its kind |
| `ConfigPrinter.RuleIsBox` | src/config.rs:109-141 | a parsed rule matches a box of integer intervals of addresses and ports, cut down to addresses ending in 255 for `directed` |
| `ConfigPrinter.ParsedConfigWellFormed` | src/config.rs:178-204 | all rules of a parsed file are well formed |
| `ConfigParser.Parse` | src/config.rs:179-204 | all or nothing and in order: rule k comes from the k-th line that is neither blank nor a comment, or the number reported is that of the first such line that denotes no rule |
| `ConfigParser.ParseMeaning` | src/config.rs:182-203 | a parse succeeds only if every line that is neither blank nor a comment denotes a rule, giving these rules in order; otherwise it reports the number, from one, of the first such line that denotes none |
| `Text.LinesMeaning` | src/config.rs:182-182 | the lines of any text: the pieces between line feeds, each without a carriage return before its line feed, the last piece included if it is not empty |
| `Text.LinesOfJoin` | src/config.rs:182-182 | the same for every sequence of pieces |
| `ConfigParser.CommentsAndBlanks` | src/config.rs:185-188 | a line of white space, or one whose first other character is `#`, holds no rule |
| `ConfigParser.AnyWhitespaceSeparates` | src/config.rs:208-208 | any white-space character, a tab for instance, separates the words of a rule as a space does |
| `Text.WhitespaceSeparates` | src/config.rs:208-208 | the words around a white-space character are those before it and those behind it |
| `Text.TrimMeaning` | src/config.rs:183-183 | trimming takes off all white space on both sides and nothing else |
| `Text.AsciiWhitespace` | src/config.rs:208-208 | the white space of ASCII |
| `ConfigParser.ParseUnique` | src/config.rs:179-204 | that relation determines the result |
| `ConfigParser.ParseRule` | src/config.rs:207-282 | the word-by-word parser computes the rule that the line denotes |
| `ConfigParser.ParseNatOptions` | src/config.rs:238-258 | the option loop computes the fold of the words, failing at the first bad one |
| `ConfigParser.NatOptionsMeaning` | src/config.rs:234-258 | options are accepted iff each word is a known option with a valid value, and the last of each kind counts |
| `ConfigParser.AddrPortIff` | src/config.rs:284-294 | an address and port is exactly two valid parts around a single colon |
| `ConfigParser.DestAddrPortIff` | src/config.rs:361-384 | a destination is exactly a valid destination address and a valid port around a single colon |
| `ConfigGrammar.PortsAreMandatory` | src/config.rs:284-294 | a rule of the documented grammar, valid in everything else, is accepted iff both ports are there and valid |
| `Examples.PortlessRuleExample` | README.md:110-112 | the line `allow udp any any` denotes no rule |
| `ConfigParser.WhitespaceIsIrrelevant` | src/config.rs:208-212 | only the words of a line matter; a line without words denotes no rule |
| `Text.Ipv4IffPrinted` | src/config.rs:307-308 | an address has exactly one spelling |
| `Text.PrintedIpv4` | src/config.rs:307-308 | that spelling: the four octets in order, in decimal, with dots between |
| `Text.DigitValues` | src/config.rs:345-356 | the ten digits and their values |
| `Text.UintIffSpelled` | src/config.rs:345-356 | a port is spelled with an optional plus sign and leading zeros, and in no other way |

## Left out

- Sockets, `select`, `read`, `sendto`, privileges, command line, interface discovery, logging and packaging: calls into the system with nothing to prove.
- The checksum routine itself: taken from the standards, as the packet library is not part of this model.
- Floating-point rounding and clock resolution in the limiter: real numbers stand in.
- The wording of error messages: a rejected rule has no content and a rejected file a line number.
- Reassembly of fragments: what becomes of the datagram that relayed fragments are put together to.
- IP options are carried unchanged and not interpreted; a source route does not enter the pseudo-header.
- A failing `select`, which ends the loop: the trace simply ends there.
- A forged marker on host traffic: such a frame is dropped like a relayed one.
- The configuration used when no file is given (`src/config.rs:156-169`): one rule that matches everything.
- Warnings about configurations that cannot relay anything (`src/main.rs:199-252`).
