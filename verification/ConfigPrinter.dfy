/** Which rules the configuration parser can produce, and a printer that it inverts. */
module ConfigPrinter {
  import opened Bits
  import opened Net
  import opened Text
  import opened Config
  import opened ConfigParser

  // ---------------------------------------------------------------- well-formed rules

  ghost predicate WellFormedIp(m: IpMatcher) {
    m.Cidr? ==> exists n: nat :: n <= 32 && IsPrefix(m.net, m.mask, n)
  }

  /** The mask has `n` leading ones and the address has no bits outside it. */
  predicate IsPrefix(net: u32, mask: u32, n: nat) {
    n <= 32 && mask == PrefixMask(n) && BitAnd(net, mask) == net
  }

  predicate WellFormedPort(m: PortMatcher) {
    m.Range? ==> m.start <= m.end
  }

  ghost predicate WellFormedRule(r: Rule) {
    && WellFormedIp(r.srcIp) && WellFormedIp(r.dstIp)
    && WellFormedPort(r.srcPort) && WellFormedPort(r.dstPort)
    && (r.action == Deny ==> r.natOptions == NO_NAT)
    && (r.broadcastType == Limited <==> r.dstIp == IpMatcher.Exact(LIMITED_BROADCAST))
    && (r.broadcastType == Directed ==> r.dstIp == IpMatcher.Any)
  }

  lemma CidrMatcherIsPrefix(addr: Ipv4Addr, n: nat)
    requires n <= 32
    ensures var m := CidrMatcher(addr, n); IsPrefix(m.net, m.mask, n)
  {
    var x, size := addr.U32(), BlockSize(n);
    MaskRoundsDown(x, n);
    MaskRoundsDown(x - x % size, n);
    ClearedIsMultiple(x, 32 - n);
  }

  lemma ParsedIpWellFormed(s: string)
    ensures ParseIpMatcher(s).Some? ==> WellFormedIp(ParseIpMatcher(s).value)
  {
    if ParseIpMatcher(s).Some? && ParseIpMatcher(s).value.Cidr? {
      var parts := Split(s, '/');
      CidrMatcherIsPrefix(ParseIpv4(parts[0]).value, ParseUint(parts[1], 0xFFFF_FFFF).value);
    }
  }

  lemma PrintedLimited()
    ensures PrintIpv4(LIMITED_BROADCAST) == "255.255.255.255"
  {
    assert PrintNat(255) == "255";
  }

  /** The limited broadcast address can only be spelled in the way the parser treats specially. */
  lemma ParsedDestWellFormed(s: string)
    ensures ParseDestIp(s).Some? ==>
              var (ip, kind) := ParseDestIp(s).value;
              && WellFormedIp(ip)
              && (kind == Limited <==> ip == IpMatcher.Exact(LIMITED_BROADCAST))
              && (kind == Directed ==> ip == IpMatcher.Any)
  {
    ParsedIpWellFormed(s);
    Ipv4IffPrinted(s, LIMITED_BROADCAST);
    PrintedLimited();
  }

  /** Every rule that the parser produces is well formed. */
  lemma ParsedRuleWellFormed(line: string)
    ensures RuleOf(line).Some? ==> WellFormedRule(RuleOf(line).value)
  {
    var parts := SplitWhitespace(line);
    if |parts| >= 4 && RuleOfParts(parts).Some? {
      var src, dst := Split(parts[2], ':'), Split(parts[3], ':');
      ParsedIpWellFormed(src[0]);
      ParsedDestWellFormed(dst[0]);
    }
  }

  // ---------------------------------------------------------------- what well-formed rules match

  /** The addresses from the first number up to but not including the second. */
  function AddressRange(m: IpMatcher): (nat, nat) {
    match m
    case Any => (0, 0x1_0000_0000)
    case Exact(ip) => (ip.U32(), ip.U32() + 1)
    case Cidr(net, mask) => (net, net + (0x1_0000_0000 - mask))
  }

  /** The ports from the first number up to and including the second. */
  function PortRange(m: PortMatcher): (nat, nat) {
    match m
    case Any => (0, 0xFFFF)
    case Exact(port) => (port, port)
    case Range(start, end) => (start, end)
  }

  predicate InAddressRange(a: Ipv4Addr, r: (nat, nat)) {
    r.0 <= a.U32() < r.1
  }

  lemma MatcherIsRange(m: IpMatcher, a: Ipv4Addr)
    requires WellFormedIp(m)
    ensures m.Matches(a) <==> InAddressRange(a, AddressRange(m))
  {
    match m
    case Any =>
    case Exact(ip) =>
      if ip.U32() == a.U32() {
        U32Injective(ip, a);
      }
    case Cidr(net, mask) =>
      var n: nat :| n <= 32 && IsPrefix(net, mask, n);
      CidrIsInterval(FromU32(net), n, a);
      PrefixMaskValue(n);
  }

  /** The bit masks refine interval arithmetic: a rule of the parser matches a box of addresses and
      ports, cut down to addresses that end in 255 if its destination is `directed`. */
  lemma RuleIsBox(r: Rule, pkt: PacketInfo)
    requires WellFormedRule(r) && pkt.protocol == Udp
    ensures r.Matches(pkt)
            <==> && InAddressRange(pkt.srcIp, AddressRange(r.srcIp))
                 && InAddressRange(pkt.dstIp, AddressRange(r.dstIp))
                 && PortRange(r.srcPort).0 <= pkt.srcPort <= PortRange(r.srcPort).1
                 && PortRange(r.dstPort).0 <= pkt.dstPort <= PortRange(r.dstPort).1
                 && (r.broadcastType == Directed ==> pkt.dstIp.o3 == 255 && pkt.dstIp != LIMITED_BROADCAST)
  {
    MatcherIsRange(r.srcIp, pkt.srcIp);
    MatcherIsRange(r.dstIp, pkt.dstIp);
  }

  // ---------------------------------------------------------------- printing

  function FromU32(x: u32): (a: Ipv4Addr)
    ensures a.U32() == x
  {
    var high, low := x / 0x1_0000, x % 0x1_0000;
    Ipv4Addr(high / 0x100, high % 0x100, low / 0x100, low % 0x100)
  }

  /** The length, not below `n`, of the prefix whose mask is `mask`. */
  function PrefixLength(mask: u32, n: nat): (r: nat)
    requires n <= 32
    ensures n <= r <= 32
    ensures (exists k :: n <= k <= 32 && mask == PrefixMask(k)) ==> mask == PrefixMask(r)
    decreases 32 - n
  {
    if n == 32 || mask == PrefixMask(n) then n else PrefixLength(mask, n + 1)
  }

  function PrintIp(m: IpMatcher): string {
    match m
    case Any => "any"
    case Exact(ip) => PrintIpv4(ip)
    case Cidr(net, mask) => PrintIpv4(FromU32(net)) + "/" + PrintNat(PrefixLength(mask, 0))
  }

  function PrintPort(m: PortMatcher): string {
    match m
    case Any => "any"
    case Exact(port) => PrintNat(port)
    case Range(start, end) => PrintNat(start) + "-" + PrintNat(end)
  }

  function PrintDestIp(ip: IpMatcher, kind: BroadcastType): string {
    if kind == Directed then "directed" else PrintIp(ip)
  }

  function PrintAddrOption(key: string, v: Option<Ipv4Addr>): seq<string> {
    match v case Some(a) => [key + PrintIpv4(a)] case None => []
  }

  function PrintPortOption(key: string, v: Option<u16>): seq<string> {
    match v case Some(p) => [key + PrintNat(p)] case None => []
  }

  function PrintOptions(o: NatOptions): seq<string> {
    PrintAddrOption("snat=", o.sourceIp) + PrintAddrOption("dnat=", o.destIp)
    + PrintPortOption("sport=", o.sourcePort) + PrintPortOption("dport=", o.destPort)
  }

  function RuleWords(r: Rule): (ws: seq<string>)
    ensures |ws| >= 4
  {
    [
      if r.action == Allow then "allow" else "deny",
      if r.protocol == Udp then "udp" else "any",
      PrintIp(r.srcIp) + ":" + PrintPort(r.srcPort),
      PrintDestIp(r.dstIp, r.broadcastType) + ":" + PrintPort(r.dstPort)
    ] + PrintOptions(r.natOptions)
  }

  /** A rule as one line of the documented grammar. */
  function PrintRule(r: Rule): string {
    Join(RuleWords(r), ' ')
  }

  function PrintRules(rules: seq<Rule>): seq<string> {
    seq(|rules|, i requires 0 <= i < |rules| => PrintRule(rules[i]))
  }

  function PrintConfig(rules: seq<Rule>): string {
    Unlines(PrintRules(rules))
  }

  // ---------------------------------------------------------------- characters of printed fields

  /** Digits, dots and slashes: what addresses and prefixes are written with. */
  predicate IsAddressText(s: string) {
    |s| > 0 && IsDigit(s[0]) && forall i | 0 <= i < |s| :: IsDigit(s[i]) || s[i] == '.' || s[i] == '/'
  }

  lemma {:induction false} DottedDigits(parts: seq<string>)
    requires |parts| > 0 && forall i | 0 <= i < |parts| :: AllDigits(parts[i])
    ensures IsAddressText(Join(parts, '.')) && '/' !in Join(parts, '.')
  {
    if |parts| <= 1 {
    } else {
      DottedDigits(parts[1..]);
    }
  }

  lemma PrintedAddressText(a: Ipv4Addr)
    ensures IsAddressText(PrintIpv4(a)) && '/' !in PrintIpv4(a)
  {
    DottedDigits([PrintNat(a.o0), PrintNat(a.o1), PrintNat(a.o2), PrintNat(a.o3)]);
  }

  lemma AddressTextIsNoKeyword(s: string)
    requires IsAddressText(s)
    ensures s != "any" && s != "directed" && ':' !in s && IsToken(s)
  {
  }

  lemma PrintedIpText(m: IpMatcher)
    ensures ':' !in PrintIp(m) && IsToken(PrintIp(m))
    ensures m != IpMatcher.Any ==> IsAddressText(PrintIp(m))
  {
    match m
    case Any =>
    case Exact(ip) =>
      PrintedAddressText(ip);
      AddressTextIsNoKeyword(PrintIp(m));
    case Cidr(net, mask) =>
      PrintedAddressText(FromU32(net));
      AddressTextIsNoKeyword(PrintIp(m));
  }

  lemma PrintedPortText(m: PortMatcher)
    ensures ':' !in PrintPort(m) && IsToken(PrintPort(m))
  {
  }

  // ---------------------------------------------------------------- fields round trip

  lemma IpRoundTrip(m: IpMatcher)
    requires WellFormedIp(m)
    ensures ParseIpMatcher(PrintIp(m)) == Some(m)
  {
    match m
    case Any =>
    case Exact(ip) =>
      PrintedIpText(m);
      PrintedAddressText(ip);
      AddressTextIsNoKeyword(PrintIp(m));
      Ipv4IffPrinted(PrintIp(m), ip);
    case Cidr(net, mask) =>
      var k: nat :| k <= 32 && IsPrefix(net, mask, k);
      var n := PrefixLength(mask, 0);
      assert mask == PrefixMask(n);
      CidrRoundTrip(net, n);
  }

  lemma CidrRoundTrip(net: u32, n: nat)
    requires n <= 32 && BitAnd(net, PrefixMask(n)) == net
    ensures ParseIpMatcher(PrintIpv4(FromU32(net)) + "/" + PrintNat(n)) == Some(Cidr(net, PrefixMask(n)))
  {
    var a, b := PrintIpv4(FromU32(net)), PrintNat(n);
    var s := a + ['/'] + b;
    PrintedAddressText(FromU32(net));
    assert s[|a|] == '/';
    AddressTextIsNoKeyword(s);
    SplitTwo(a, b, '/');
    Ipv4IffPrinted(a, FromU32(net));
    ParsePrintUint(n, 0xFFFF_FFFF);
  }

  lemma PortRoundTrip(m: PortMatcher)
    requires WellFormedPort(m)
    ensures ParsePortMatcher(PrintPort(m)) == Some(m)
  {
    match m
    case Any =>
    case Exact(port) =>
      assert IsDigit(PrintNat(port)[0]);
      ParsePrintUint(port, 0xFFFF);
    case Range(start, end) =>
      var a, b := PrintNat(start), PrintNat(end);
      assert (a + ['-'] + b)[|a|] == '-';
      assert IsDigit((a + ['-'] + b)[0]);
      SplitTwo(a, b, '-');
      ParsePrintUint(start, 0xFFFF);
      ParsePrintUint(end, 0xFFFF);
  }

  lemma AddrPortOfParts(x: string, y: string, ip: IpMatcher, port: PortMatcher)
    requires ':' !in x && ':' !in y && ParseIpMatcher(x) == Some(ip) && ParsePortMatcher(y) == Some(port)
    ensures ParseAddrPort(x + ":" + y) == Some((ip, port))
  {
    SplitTwo(x, y, ':');
  }

  lemma AddrPortRoundTrip(ip: IpMatcher, port: PortMatcher)
    requires WellFormedIp(ip) && WellFormedPort(port)
    ensures ParseAddrPort(PrintIp(ip) + ":" + PrintPort(port)) == Some((ip, port))
  {
    PrintedIpText(ip);
    PrintedPortText(port);
    IpRoundTrip(ip);
    PortRoundTrip(port);
    AddrPortOfParts(PrintIp(ip), PrintPort(port), ip, port);
  }

  lemma DestIpRoundTrip(ip: IpMatcher, kind: BroadcastType)
    requires WellFormedIp(ip)
    requires kind == Limited <==> ip == IpMatcher.Exact(LIMITED_BROADCAST)
    requires kind == Directed ==> ip == IpMatcher.Any
    ensures ParseDestIp(PrintDestIp(ip, kind)) == Some((ip, kind))
    ensures ':' !in PrintDestIp(ip, kind) && IsToken(PrintDestIp(ip, kind))
  {
    PrintedIpText(ip);
    PrintedLimited();
    if kind == BroadcastType.Any && ip != IpMatcher.Any {
      var s := PrintIp(ip);
      AddressTextIsNoKeyword(s);
      IpRoundTrip(ip);
      IpRoundTrip(IpMatcher.Exact(LIMITED_BROADCAST));
    }
  }

  lemma DestAddrPortOfParts(x: string, y: string, ip: IpMatcher, port: PortMatcher, kind: BroadcastType)
    requires ':' !in x && ':' !in y && ParseDestIp(x) == Some((ip, kind)) && ParsePortMatcher(y) == Some(port)
    ensures ParseDestAddrPort(x + ":" + y) == Some((ip, port, kind))
  {
    SplitTwo(x, y, ':');
  }

  lemma DestAddrPortRoundTrip(ip: IpMatcher, port: PortMatcher, kind: BroadcastType)
    requires WellFormedIp(ip) && WellFormedPort(port)
    requires kind == Limited <==> ip == IpMatcher.Exact(LIMITED_BROADCAST)
    requires kind == Directed ==> ip == IpMatcher.Any
    ensures ParseDestAddrPort(PrintDestIp(ip, kind) + ":" + PrintPort(port)) == Some((ip, port, kind))
  {
    PrintedPortText(port);
    DestIpRoundTrip(ip, kind);
    PortRoundTrip(port);
    DestAddrPortOfParts(PrintDestIp(ip, kind), PrintPort(port), ip, port, kind);
  }

  lemma AppendWord(words: seq<string>, w: string)
    ensures NatOptionsOf(words + [w])
            == if NatOptionsOf(words).Some? then AddOption(NatOptionsOf(words).value, w) else None
  {
    assert (words + [w])[..|words|] == words;
  }

  lemma AddrOptionRoundTrip(o: NatOptions, key: string, a: Ipv4Addr)
    requires key == "snat=" || key == "dnat="
    ensures AddOption(o, key + PrintIpv4(a))
            == Some(if key == "snat=" then o.(sourceIp := Some(a)) else o.(destIp := Some(a)))
  {
    var w := key + PrintIpv4(a);
    assert w[5..] == PrintIpv4(a);
    assert key <= w;
    DistinctKeys(w);
    Ipv4IffPrinted(w[5..], a);
  }

  lemma PortOptionRoundTrip(o: NatOptions, key: string, p: u16)
    requires key == "sport=" || key == "dport="
    ensures AddOption(o, key + PrintNat(p))
            == Some(if key == "sport=" then o.(sourcePort := Some(p)) else o.(destPort := Some(p)))
  {
    var w := key + PrintNat(p);
    assert w[6..] == PrintNat(p);
    assert key <= w;
    DistinctKeys(w);
    ParsePrintUint(p, 0xFFFF);
  }

  lemma OptionsRoundTrip(o: NatOptions)
    ensures NatOptionsOf(PrintOptions(o)) == Some(o)
  {
    var w1 := PrintAddrOption("snat=", o.sourceIp);
    var w2 := w1 + PrintAddrOption("dnat=", o.destIp);
    var w3 := w2 + PrintPortOption("sport=", o.sourcePort);
    var o1 := NO_NAT.(sourceIp := o.sourceIp);
    var o2 := o1.(destIp := o.destIp);
    var o3 := o2.(sourcePort := o.sourcePort);
    assert NatOptionsOf(w1) == Some(o1) by {
      AddAddrOption([], NO_NAT, "snat=", o.sourceIp);
    }
    assert NatOptionsOf(w2) == Some(o2) by {
      AddAddrOption(w1, o1, "dnat=", o.destIp);
    }
    assert NatOptionsOf(w3) == Some(o3) by {
      AddPortOption(w2, o2, "sport=", o.sourcePort);
    }
    AddPortOption(w3, o3, "dport=", o.destPort);
  }

  lemma AddAddrOption(words: seq<string>, o: NatOptions, key: string, v: Option<Ipv4Addr>)
    requires key == "snat=" || key == "dnat="
    requires NatOptionsOf(words) == Some(o)
    requires if key == "snat=" then o.sourceIp == None else o.destIp == None
    ensures NatOptionsOf(words + PrintAddrOption(key, v))
            == Some(if key == "snat=" then o.(sourceIp := v) else o.(destIp := v))
  {
    match v
    case None =>
      assert words + [] == words;
    case Some(a) =>
      AppendWord(words, key + PrintIpv4(a));
      AddrOptionRoundTrip(o, key, a);
  }

  lemma AddPortOption(words: seq<string>, o: NatOptions, key: string, v: Option<u16>)
    requires key == "sport=" || key == "dport="
    requires NatOptionsOf(words) == Some(o)
    requires if key == "sport=" then o.sourcePort == None else o.destPort == None
    ensures NatOptionsOf(words + PrintPortOption(key, v))
            == Some(if key == "sport=" then o.(sourcePort := v) else o.(destPort := v))
  {
    match v
    case None =>
      assert words + [] == words;
    case Some(p) =>
      AppendWord(words, key + PrintNat(p));
      PortOptionRoundTrip(o, key, p);
  }

  // ---------------------------------------------------------------- rules round trip

  lemma TokensConcat(a: seq<string>, b: seq<string>)
    requires AreTokens(a) && AreTokens(b)
    ensures AreTokens(a + b)
  {
  }

  lemma AddrOptionIsToken(key: string, v: Option<Ipv4Addr>)
    requires IsToken(key)
    ensures AreTokens(PrintAddrOption(key, v))
  {
    if v.Some? {
      PrintedAddressText(v.value);
      AddressTextIsNoKeyword(PrintIpv4(v.value));
    }
  }

  lemma PortOptionIsToken(key: string, v: Option<u16>)
    requires IsToken(key)
    ensures AreTokens(PrintPortOption(key, v))
  {
  }

  lemma OptionsAreTokens(o: NatOptions)
    ensures AreTokens(PrintOptions(o))
  {
    var w1, w2 := PrintAddrOption("snat=", o.sourceIp), PrintAddrOption("dnat=", o.destIp);
    var w3, w4 := PrintPortOption("sport=", o.sourcePort), PrintPortOption("dport=", o.destPort);
    AddrOptionIsToken("snat=", o.sourceIp);
    AddrOptionIsToken("dnat=", o.destIp);
    PortOptionIsToken("sport=", o.sourcePort);
    PortOptionIsToken("dport=", o.destPort);
    TokensConcat(w1, w2);
    TokensConcat(w1 + w2, w3);
    TokensConcat(w1 + w2 + w3, w4);
  }

  lemma ColonToken(a: string, b: string)
    requires IsToken(a) && IsToken(b)
    ensures IsToken(a + ":" + b)
  {
  }

  lemma FourTokens(a: string, b: string, c: string, d: string)
    requires IsToken(a) && IsToken(b) && IsToken(c) && IsToken(d)
    ensures AreTokens([a, b, c, d])
  {
  }

  lemma FieldsAreTokens(r: Rule)
    requires WellFormedRule(r)
    ensures IsToken(PrintIp(r.srcIp) + ":" + PrintPort(r.srcPort))
    ensures IsToken(PrintDestIp(r.dstIp, r.broadcastType) + ":" + PrintPort(r.dstPort))
  {
    PrintedIpText(r.srcIp);
    PrintedPortText(r.srcPort);
    PrintedPortText(r.dstPort);
    DestIpRoundTrip(r.dstIp, r.broadcastType);
    ColonToken(PrintIp(r.srcIp), PrintPort(r.srcPort));
    ColonToken(PrintDestIp(r.dstIp, r.broadcastType), PrintPort(r.dstPort));
  }

  lemma KeywordsAreTokens()
    ensures IsToken("allow") && IsToken("deny") && IsToken("udp") && IsToken("any")
  {
  }

  lemma RuleWordsAreTokens(r: Rule)
    requires WellFormedRule(r)
    ensures AreTokens(RuleWords(r))
  {
    var action, protocol := RuleWords(r)[0], RuleWords(r)[1];
    var src, dst := RuleWords(r)[2], RuleWords(r)[3];
    KeywordsAreTokens();
    FieldsAreTokens(r);
    FourTokens(action, protocol, src, dst);
    OptionsAreTokens(r.natOptions);
    TokensConcat([action, protocol, src, dst], PrintOptions(r.natOptions));
  }

  /** Printing a well-formed rule and parsing the line gives the rule back. */
  lemma RuleRoundTrip(r: Rule)
    requires WellFormedRule(r)
    ensures RuleOf(PrintRule(r)) == Some(r)
  {
    var ws := RuleWords(r);
    RuleWordsAreTokens(r);
    SplitWhitespaceOfJoin(ws);
    AddrPortRoundTrip(r.srcIp, r.srcPort);
    DestAddrPortRoundTrip(r.dstIp, r.dstPort, r.broadcastType);
    assert ws[4..] == PrintOptions(r.natOptions);
    OptionsRoundTrip(r.natOptions);
  }

  /** The rules that some line denotes are exactly the well-formed ones. */
  lemma ParserImage(r: Rule)
    ensures WellFormedRule(r) <==> exists line :: RuleOf(line) == Some(r)
  {
    if WellFormedRule(r) {
      RuleRoundTrip(r);
    }
    forall line | RuleOf(line) == Some(r)
      ensures WellFormedRule(r)
    {
      ParsedRuleWellFormed(line);
    }
  }

  // ---------------------------------------------------------------- files round trip

  lemma PrintedRuleIsLine(r: Rule)
    requires WellFormedRule(r)
    ensures IsPlain(PrintRule(r))
  {
    var ws := RuleWords(r);
    RuleWordsAreTokens(r);
    TrimOfJoin(ws);
    EndsOfJoin(ws);
    NotInJoin(ws, '\n');
  }

  ghost predicate AllWellFormed(rules: seq<Rule>) {
    forall i | 0 <= i < |rules| :: WellFormedRule(rules[i])
  }

  /** A line that trimming leaves alone and that holds a rule, not a comment. */
  predicate IsPlain(s: string) {
    IsLine(s) && Trim(s) == s && !IsSkipped(s)
  }

  lemma {:induction false} RuleLinesOfPlain(ls: seq<string>)
    requires forall i | 0 <= i < |ls| :: IsPlain(ls[i])
    ensures |RuleLines(ls)| == |ls|
    ensures forall i | 0 <= i < |ls| :: RuleLines(ls)[i] == RuleLine(i + 1, ls[i])
  {
    if |ls| == 0 {
    } else {
      var init := ls[..|ls| - 1];
      RuleLinesOfPlain(init);
      assert IsPlain(ls[|ls| - 1]);
      assert RuleLines(ls) == RuleLines(init) + [RuleLine(|ls|, ls[|ls| - 1])];
    }
  }

  lemma LinesOfPlain(ls: seq<string>)
    requires forall i | 0 <= i < |ls| :: IsPlain(ls[i])
    ensures Lines(Unlines(ls)) == ls
  {
    assert forall i | 0 <= i < |ls| :: IsPlain(ls[i]) ==> IsLine(ls[i]);
    LinesOfUnlines(ls);
  }

  lemma RulesOfLines(rls: seq<RuleLine>, ls: seq<string>, rules: seq<Rule>)
    requires |rls| == |ls| == |rules|
    requires forall i | 0 <= i < |ls| :: rls[i] == RuleLine(i + 1, ls[i])
    requires forall i | 0 <= i < |ls| :: RuleOf(ls[i]) == Some(rules[i])
    ensures AreRulesOf(rls, rules)
  {
    forall k | 0 <= k < |rls|
      ensures RuleOf(rls[k].text) == Some(rules[k])
    {
      assert rls[k].text == ls[k];
    }
  }

  lemma ParseOfPlain(ls: seq<string>, rules: seq<Rule>)
    requires |ls| == |rules|
    requires forall i | 0 <= i < |ls| :: IsPlain(ls[i]) && RuleOf(ls[i]) == Some(rules[i])
    ensures IsParseOf(Unlines(ls), Parsed(rules))
  {
    LinesOfPlain(ls);
    RuleLinesOfPlain(ls);
    RulesOfLines(RuleLines(ls), ls, rules);
  }

  /** Printing any list of well-formed rules and parsing the text gives the list back, in order. */
  lemma ConfigRoundTrip(rules: seq<Rule>, r: ParseResult)
    requires AllWellFormed(rules)
    ensures IsParseOf(PrintConfig(rules), r) <==> r == Parsed(rules)
  {
    var ls := PrintRules(rules);
    forall i | 0 <= i < |ls|
      ensures IsPlain(ls[i]) && RuleOf(ls[i]) == Some(rules[i])
    {
      PrintedRuleIsLine(rules[i]);
      RuleRoundTrip(rules[i]);
    }
    ParseOfPlain(ls, rules);
    if IsParseOf(PrintConfig(rules), r) {
      ParseUnique(PrintConfig(rules), r, Parsed(rules));
    }
  }

  /** So does the text without its last line feed. */
  lemma UnterminatedRoundTrip(rules: seq<Rule>, r: ParseResult)
    requires AllWellFormed(rules) && |rules| > 0
    ensures IsParseOf(Join(PrintRules(rules), '\n'), r) <==> r == Parsed(rules)
    ensures PrintConfig(rules) == Join(PrintRules(rules), '\n') + "\n"
  {
    var ls := PrintRules(rules);
    forall i | 0 <= i < |ls|
      ensures IsPlain(ls[i])
    {
      PrintedRuleIsLine(rules[i]);
    }
    SameLines(ls);
    UnlinesIsJoin(ls);
    ConfigRoundTrip(rules, r);
  }

  /** A line that is not empty and has no carriage return at its end. */
  predicate IsBare(s: string) {
    '\n' !in s && s != "" && s[|s| - 1] != '\r'
  }

  lemma PlainIsBare(s: string)
    requires IsPlain(s)
    ensures IsBare(s)
  {
  }

  lemma BareLines(ls: seq<string>, got: seq<string>)
    requires |ls| > 0 && AreLinesOf(ls, got) && forall i | 0 <= i < |ls| :: IsBare(ls[i])
    ensures got == ls
  {
    assert IsBare(ls[|ls| - 1]);
    forall i | 0 <= i < |ls| - 1
      ensures got[i] == ls[i]
    {
      assert IsStripped(ls[i], got[i]) && IsBare(ls[i]);
    }
  }

  lemma SameLines(ls: seq<string>)
    requires |ls| > 0 && forall i | 0 <= i < |ls| :: IsPlain(ls[i])
    ensures Lines(Join(ls, '\n')) == Lines(Unlines(ls))
  {
    LinesOfPlain(ls);
    forall i | 0 <= i < |ls|
      ensures IsBare(ls[i])
    {
      PlainIsBare(ls[i]);
    }
    assert forall i | 0 <= i < |ls| :: IsBare(ls[i]) ==> '\n' !in ls[i];
    LinesOfJoin(ls);
    BareLines(ls, Lines(Join(ls, '\n')));
  }

  lemma {:induction false} UnlinesIsJoin(ls: seq<string>)
    requires |ls| > 0
    ensures Unlines(ls) == Join(ls, '\n') + "\n"
  {
    if |ls| == 1 {
      assert ls[1..] == [] && Unlines([]) == "";
    } else {
      UnlinesIsJoin(ls[1..]);
    }
  }

  /** Every rule of a parsed configuration is well formed. */
  lemma ParsedConfigWellFormed(content: string, rules: seq<Rule>)
    requires IsParseOf(content, Parsed(rules))
    ensures AllWellFormed(rules)
  {
    var ls := RuleLines(Lines(content));
    forall i | 0 <= i < |rules|
      ensures WellFormedRule(rules[i])
    {
      ParsedRuleWellFormed(ls[i].text);
      assert RuleOf(ls[i].text) == Some(rules[i]);
    }
  }
}
