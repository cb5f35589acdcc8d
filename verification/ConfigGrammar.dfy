/** The exact language of the strict parser: which words spell which rule (src/config.rs). */
module ConfigGrammar {
  import opened Net
  import opened Text
  import opened Config
  import opened ConfigParser
  import opened ConfigPrinter

  // ---------------------------------------------------------------- addresses

  ghost predicate IsCidrText(s: string, addr: Ipv4Addr, n: nat, length: string) {
    n <= 32 && s == PrintIpv4(addr) + "/" + length && Spells(length, n)
  }

  ghost predicate IpSpelled(s: string, m: IpMatcher) {
    match m
    case Any => s == "any"
    case Exact(ip) => s == PrintIpv4(ip)
    case Cidr(_, _) => exists addr, n: nat, length :: IsCidrText(s, addr, n, length) && CidrMatcher(addr, n) == m
  }

  lemma NumberText(s: string, n: nat)
    requires Spells(s, n)
    ensures |s| > 0 && forall i | 0 <= i < |s| :: IsDigit(s[i]) || s[i] == '+'
  {
    UintIffSpelled(s, n, n);
    var digits := if |s| > 0 && s[0] == '+' then s[1..] else s;
    assert AllDigits(digits);
    assert s == digits || s == "+" + digits;
  }

  lemma CidrOfSplit(s: string, a: string, length: string, addr: Ipv4Addr, n: nat)
    requires s != "any" && '/' in s && Split(s, '/') == [a, length]
    requires n <= 32 && ParseIpv4(a) == Some(addr) && ParseUint(length, 0xFFFF_FFFF) == Some(n)
    ensures ParseIpMatcher(s) == Some(CidrMatcher(addr, n))
  {
  }

  lemma CidrTextFacts(a: string, length: string)
    requires IsAddressText(a) && '/' !in a && '/' !in length && ':' !in length
    ensures var s := a + "/" + length;
            s != "any" && '/' in s && Split(s, '/') == [a, length] && IsDigit(s[0]) && ':' !in s
  {
    var s := a + "/" + length;
    assert s[0] == a[0] && s[|a|] == '/';
    SplitTwo(a, length, '/');
  }

  lemma CidrTextParses(s: string, addr: Ipv4Addr, n: nat, length: string)
    requires IsCidrText(s, addr, n, length)
    ensures ParseIpMatcher(s) == Some(CidrMatcher(addr, n))
    ensures |s| > 0 && IsDigit(s[0]) && ':' !in s
  {
    PrintedAddressText(addr);
    NumberText(length, n);
    Ipv4IffPrinted(PrintIpv4(addr), addr);
    UintIffSpelled(length, n, 0xFFFF_FFFF);
    CidrTextFacts(PrintIpv4(addr), length);
    CidrOfSplit(s, PrintIpv4(addr), length, addr, n);
  }

  lemma ParsedCidrText(s: string)
    requires '/' in s && ParseIpMatcher(s).Some? && s != "any"
    ensures ParseIpMatcher(s).value.Cidr? && IpSpelled(s, ParseIpMatcher(s).value)
  {
    var parts := Split(s, '/');
    JoinSplit(s, '/');
    assert parts[1..] == [parts[1]];
    var addr, n := ParseIpv4(parts[0]).value, ParseUint(parts[1], 0xFFFF_FFFF).value;
    Ipv4IffPrinted(parts[0], addr);
    UintIffSpelled(parts[1], n, 0xFFFF_FFFF);
    assert IsCidrText(s, addr, n, parts[1]);
  }

  lemma IpIffSpelled(s: string, m: IpMatcher)
    ensures ParseIpMatcher(s) == Some(m) <==> IpSpelled(s, m)
    ensures IpSpelled(s, m) ==> ':' !in s && (m == IpMatcher.Any || (|s| > 0 && IsDigit(s[0])))
  {
    if ParseIpMatcher(s) == Some(m) && s != "any" {
      if '/' in s {
        ParsedCidrText(s);
      } else {
        Ipv4IffPrinted(s, m.ip);
      }
    }
    if IpSpelled(s, m) {
      match m
      case Any =>
      case Exact(ip) =>
        PrintedAddressText(ip);
        AddressTextIsNoKeyword(s);
        Ipv4IffPrinted(s, ip);
      case Cidr(_, _) =>
        var addr, n: nat, length :| IsCidrText(s, addr, n, length) && CidrMatcher(addr, n) == m;
        CidrTextParses(s, addr, n, length);
    }
  }

  // ---------------------------------------------------------------- ports

  ghost predicate IsRangeText(s: string, start: u16, end: u16, x: string, y: string) {
    s == x + "-" + y && Spells(x, start) && Spells(y, end)
  }

  ghost predicate PortSpelled(s: string, m: PortMatcher) {
    match m
    case Any => s == "any"
    case Exact(port) => Spells(s, port)
    case Range(start, end) => start <= end && exists x, y :: IsRangeText(s, start, end, x, y)
  }

  /** What the parser needs to know of a port number. */
  predicate IsPortText(s: string, n: u16) {
    ParseUint(s, 0xFFFF) == Some(n) && '-' !in s && ':' !in s && |s| > 0 && s[0] != 'a'
  }

  lemma SpelledPortText(s: string, n: u16)
    requires Spells(s, n)
    ensures IsPortText(s, n)
  {
    NumberText(s, n);
    UintIffSpelled(s, n, 0xFFFF);
  }

  lemma RangeOfParts(x: string, y: string, start: u16, end: u16)
    requires start <= end && IsPortText(x, start) && IsPortText(y, end)
    ensures ParsePortMatcher(x + "-" + y) == Some(Range(start, end)) && ':' !in x + "-" + y
  {
    var s := x + "-" + y;
    assert s[|x|] == '-' && s[0] == x[0];
    SplitTwo(x, y, '-');
  }

  lemma ParsedRangeText(s: string)
    requires '-' in s && ParsePortMatcher(s).Some? && s != "any"
    ensures ParsePortMatcher(s).value.Range? && PortSpelled(s, ParsePortMatcher(s).value)
  {
    var parts := Split(s, '-');
    JoinSplit(s, '-');
    assert parts[1..] == [parts[1]];
    var start, end := ParseUint(parts[0], 0xFFFF).value, ParseUint(parts[1], 0xFFFF).value;
    UintIffSpelled(parts[0], start, 0xFFFF);
    UintIffSpelled(parts[1], end, 0xFFFF);
    assert IsRangeText(s, start, end, parts[0], parts[1]);
  }

  lemma PortIffSpelled(s: string, m: PortMatcher)
    ensures ParsePortMatcher(s) == Some(m) <==> PortSpelled(s, m)
    ensures PortSpelled(s, m) ==> ':' !in s
  {
    if ParsePortMatcher(s) == Some(m) && s != "any" {
      if '-' in s {
        ParsedRangeText(s);
      } else {
        UintIffSpelled(s, m.port, 0xFFFF);
      }
    }
    if PortSpelled(s, m) {
      match m
      case Any =>
      case Exact(port) =>
        SpelledPortText(s, port);
      case Range(start, end) =>
        var x, y :| IsRangeText(s, start, end, x, y);
        SpelledPortText(x, start);
        SpelledPortText(y, end);
        RangeOfParts(x, y, start, end);
    }
  }

  // ---------------------------------------------------------------- source and destination

  ghost predicate DestSpelled(s: string, ip: IpMatcher, kind: BroadcastType) {
    match kind
    case Limited => s == "255.255.255.255" && ip == IpMatcher.Exact(LIMITED_BROADCAST)
    case Directed => s == "directed" && ip == IpMatcher.Any
    case Any => IpSpelled(s, ip) && ip != IpMatcher.Exact(LIMITED_BROADCAST)
  }

  lemma DestIffSpelled(s: string, ip: IpMatcher, kind: BroadcastType)
    ensures ParseDestIp(s) == Some((ip, kind)) <==> DestSpelled(s, ip, kind)
    ensures DestSpelled(s, ip, kind) ==> ':' !in s
  {
    IpIffSpelled(s, ip);
    ParsedDestWellFormed(s);
    PrintedLimited();
    IpIffSpelled(s, IpMatcher.Exact(LIMITED_BROADCAST));
  }

  ghost predicate AddrPortSpelled(s: string, ip: IpMatcher, port: PortMatcher) {
    exists x, y :: IsPair(s, x, y) && IpSpelled(x, ip) && PortSpelled(y, port)
  }

  ghost predicate DestAddrPortSpelled(s: string, ip: IpMatcher, port: PortMatcher, kind: BroadcastType) {
    exists x, y :: IsPair(s, x, y) && DestSpelled(x, ip, kind) && PortSpelled(y, port)
  }

  lemma AddrPortIffSpelled(s: string, ip: IpMatcher, port: PortMatcher)
    ensures ParseAddrPort(s) == Some((ip, port)) <==> AddrPortSpelled(s, ip, port)
  {
    AddrPortIff(s, ip, port);
    forall x, y | IsPair(s, x, y)
      ensures ParseIpMatcher(x) == Some(ip) <==> IpSpelled(x, ip)
      ensures ParsePortMatcher(y) == Some(port) <==> PortSpelled(y, port)
    {
      IpIffSpelled(x, ip);
      PortIffSpelled(y, port);
    }
  }

  lemma DestAddrPortIffSpelled(s: string, ip: IpMatcher, port: PortMatcher, kind: BroadcastType)
    ensures ParseDestAddrPort(s) == Some((ip, port, kind)) <==> DestAddrPortSpelled(s, ip, port, kind)
  {
    DestAddrPortIff(s, ip, port, kind);
    forall x, y | IsPair(s, x, y)
      ensures ParseDestIp(x) == Some((ip, kind)) <==> DestSpelled(x, ip, kind)
      ensures ParsePortMatcher(y) == Some(port) <==> PortSpelled(y, port)
    {
      DestIffSpelled(x, ip, kind);
      PortIffSpelled(y, port);
    }
  }

  // ---------------------------------------------------------------- options

  /** A known option with a valid value. */
  ghost predicate OptionSpelled(w: string) {
    || (exists a :: w == "snat=" + PrintIpv4(a) || w == "dnat=" + PrintIpv4(a))
    || (exists p: u16, t :: Spells(t, p) && (w == "sport=" + t || w == "dport=" + t))
  }

  /** The last word that starts with `key` ends with this value, or there is no such word. */
  ghost predicate IsLast(words: seq<string>, key: string, v: Option<string>) {
    match v
    case None => forall i | 0 <= i < |words| :: !(key <= words[i])
    case Some(x) => exists i :: IsLastAt(words, key, x, i)
  }

  predicate IsLastAt(words: seq<string>, key: string, x: string, i: int) {
    && 0 <= i < |words|
    && words[i] == key + x
    && forall j | i < j < |words| :: !(key <= words[j])
  }

  ghost predicate AddrOptionSpelled(words: seq<string>, key: string, v: Option<Ipv4Addr>) {
    match v
    case None => IsLast(words, key, None)
    case Some(a) => IsLast(words, key, Some(PrintIpv4(a)))
  }

  ghost predicate PortOptionSpelled(words: seq<string>, key: string, v: Option<u16>) {
    match v
    case None => IsLast(words, key, None)
    case Some(p) => exists t :: Spells(t, p) && IsLast(words, key, Some(t))
  }

  /** Only known options with valid values, the last one of each kind giving the field. */
  ghost predicate OptionsSpelled(words: seq<string>, o: NatOptions) {
    && (forall i | 0 <= i < |words| :: OptionSpelled(words[i]))
    && AddrOptionSpelled(words, "snat=", o.sourceIp)
    && AddrOptionSpelled(words, "dnat=", o.destIp)
    && PortOptionSpelled(words, "sport=", o.sourcePort)
    && PortOptionSpelled(words, "dport=", o.destPort)
  }

  /** What an accepted option word holds behind its key. */
  lemma OptionValue(w: string)
    requires IsOption(w)
    ensures "snat=" <= w || "dnat=" <= w ==> ParseIpv4(w[5..]).Some?
    ensures "sport=" <= w || "dport=" <= w ==> ParseUint(w[6..], 0xFFFF).Some?
    ensures "snat=" <= w || "dnat=" <= w || "sport=" <= w || "dport=" <= w
  {
    DistinctKeys(w);
  }

  lemma WordIsKeyAndRest(w: string, key: string)
    requires key <= w
    ensures w == key + w[|key|..]
  {
  }

  lemma AddrWordIsOption(key: string, a: Ipv4Addr)
    requires key == "snat=" || key == "dnat="
    ensures IsOption(key + PrintIpv4(a))
  {
    AddrOptionRoundTrip(NO_NAT, key, a);
  }

  lemma PortWordIsOption(key: string, t: string, p: u16)
    requires (key == "sport=" || key == "dport=") && Spells(t, p)
    ensures IsOption(key + t)
  {
    var w := key + t;
    assert key <= w && w[6..] == t;
    DistinctKeys(w);
    UintIffSpelled(t, p, 0xFFFF);
  }

  lemma OptionIsSpelled(w: string)
    requires IsOption(w)
    ensures OptionSpelled(w)
  {
    OptionValue(w);
    if "snat=" <= w || "dnat=" <= w {
      var a := ParseIpv4(w[5..]).value;
      Ipv4IffPrinted(w[5..], a);
      WordIsKeyAndRest(w, if "snat=" <= w then "snat=" else "dnat=");
      assert w == "snat=" + PrintIpv4(a) || w == "dnat=" + PrintIpv4(a);
    } else {
      var p: u16, t := ParseUint(w[6..], 0xFFFF).value, w[6..];
      UintIffSpelled(t, p, 0xFFFF);
      WordIsKeyAndRest(w, if "sport=" <= w then "sport=" else "dport=");
      assert Spells(t, p) && (w == "sport=" + t || w == "dport=" + t);
    }
  }

  lemma SpelledIsOption(w: string)
    requires OptionSpelled(w)
    ensures IsOption(w)
  {
    if a :| w == "snat=" + PrintIpv4(a) || w == "dnat=" + PrintIpv4(a) {
      AddrWordIsOption(if w == "snat=" + PrintIpv4(a) then "snat=" else "dnat=", a);
    } else {
      var p: u16, t :| Spells(t, p) && (w == "sport=" + t || w == "dport=" + t);
      PortWordIsOption(if w == "sport=" + t then "sport=" else "dport=", t, p);
    }
  }

  lemma OptionIffSpelled(w: string)
    ensures IsOption(w) <==> OptionSpelled(w)
  {
    if IsOption(w) {
      OptionIsSpelled(w);
    }
    if OptionSpelled(w) {
      SpelledIsOption(w);
    }
  }

  lemma LastValueIff(words: seq<string>, key: string, v: Option<string>)
    ensures LastValue(words, key) == v <==> IsLast(words, key, v)
  {
    LastValueIsLast(words, key);
    if IsLast(words, key, v) {
      LastIsUnique(words, key, v, LastValue(words, key));
    }
  }

  lemma {:induction false} LastValueIsLast(words: seq<string>, key: string)
    ensures IsLast(words, key, LastValue(words, key))
  {
    if |words| == 0 {
    } else {
      var n := |words| - 1;
      if key <= words[n] {
        WordIsKeyAndRest(words[n], key);
        assert IsLastAt(words, key, words[n][|key|..], n);
      } else {
        LastValueIsLast(words[..n], key);
        var v := LastValue(words[..n], key);
        if v.Some? {
          var i :| IsLastAt(words[..n], key, v.value, i);
          assert IsLastAt(words, key, v.value, i);
        }
      }
    }
  }

  lemma LastIsUnique(words: seq<string>, key: string, v: Option<string>, u: Option<string>)
    requires IsLast(words, key, v) && IsLast(words, key, u)
    ensures v == u
  {
    if v.Some? && u.Some? {
      var i :| IsLastAt(words, key, v.value, i);
      var j :| IsLastAt(words, key, u.value, j);
      assert key <= words[i] && key <= words[j];
      assert i == j;
      assert v.value == words[i][|key|..] && u.value == words[j][|key|..];
    }
  }

  /** An accepted word that starts with `key` and is the last to do so. */
  lemma LastIsWord(words: seq<string>, key: string)
    requires forall i | 0 <= i < |words| :: IsOption(words[i])
    ensures LastValue(words, key).Some? ==> IsOption(key + LastValue(words, key).value)
  {
    LastValueIsLast(words, key);
    if LastValue(words, key).Some? {
      var i :| IsLastAt(words, key, LastValue(words, key).value, i);
      assert IsOption(words[i]);
    }
  }

  lemma AddrFieldIff(words: seq<string>, key: string, v: Option<Ipv4Addr>)
    requires key == "snat=" || key == "dnat="
    requires forall i | 0 <= i < |words| :: IsOption(words[i])
    ensures ParsedAddr(LastValue(words, key)) == v <==> AddrOptionSpelled(words, key, v)
  {
    var last := LastValue(words, key);
    LastIsWord(words, key);
    LastValueIff(words, key, if v.None? then None else Some(PrintIpv4(v.value)));
    if last.Some? {
      var w := key + last.value;
      assert key <= w && w[5..] == last.value;
      OptionValue(w);
      if v.Some? {
        Ipv4IffPrinted(last.value, v.value);
      }
    }
  }

  lemma PortFieldIff(words: seq<string>, key: string, v: Option<u16>)
    requires key == "sport=" || key == "dport="
    requires forall i | 0 <= i < |words| :: IsOption(words[i])
    ensures ParsedPort(LastValue(words, key)) == v <==> PortOptionSpelled(words, key, v)
  {
    var last := LastValue(words, key);
    LastIsWord(words, key);
    LastValueIff(words, key, last);
    forall u | IsLast(words, key, u)
      ensures u == last
    {
      LastValueIff(words, key, u);
    }
    if last.Some? {
      var w := key + last.value;
      assert key <= w && w[6..] == last.value;
      OptionValue(w);
      if v.Some? {
        UintIffSpelled(last.value, v.value, 0xFFFF);
      }
    }
  }

  lemma OptionsIffSpelled(words: seq<string>, o: NatOptions)
    ensures NatOptionsOf(words) == Some(o) <==> OptionsSpelled(words, o)
  {
    NatOptionsMeaning(words);
    forall i | 0 <= i < |words|
      ensures IsOption(words[i]) <==> OptionSpelled(words[i])
    {
      OptionIffSpelled(words[i]);
    }
    if forall i | 0 <= i < |words| :: IsOption(words[i]) {
      AddrFieldIff(words, "snat=", o.sourceIp);
      AddrFieldIff(words, "dnat=", o.destIp);
      PortFieldIff(words, "sport=", o.sourcePort);
      PortFieldIff(words, "dport=", o.destPort);
    }
  }

  // ---------------------------------------------------------------- rules

  /** The words of a line spell the rule. */
  ghost predicate RuleSpelled(words: seq<string>, r: Rule) {
    && |words| >= 4
    && words[0] == (if r.action == Allow then "allow" else "deny")
    && words[1] == (if r.protocol == Udp then "udp" else "any")
    && AddrPortSpelled(words[2], r.srcIp, r.srcPort)
    && DestAddrPortSpelled(words[3], r.dstIp, r.dstPort, r.broadcastType)
    && OptionsSpelled(words[4..], r.natOptions)
    && (r.action == Deny ==> r.natOptions == NO_NAT)
  }

  lemma PartsIff(words: seq<string>, r: Rule)
    requires |words| >= 4
    ensures RuleOfParts(words) == Some(r)
            <==> && ParseAction(words[0]) == Some(r.action)
                 && ParseProtocol(words[1]) == Some(r.protocol)
                 && ParseAddrPort(words[2]) == Some((r.srcIp, r.srcPort))
                 && ParseDestAddrPort(words[3]) == Some((r.dstIp, r.dstPort, r.broadcastType))
                 && NatOptionsOf(words[4..]) == Some(r.natOptions)
                 && (r.action == Deny ==> r.natOptions == NO_NAT)
  {
  }

  /** The language of the strict parser: a line denotes a rule exactly when its words spell it. */
  lemma RuleIffSpelled(line: string, r: Rule)
    ensures RuleOf(line) == Some(r) <==> RuleSpelled(SplitWhitespace(line), r)
  {
    var words := SplitWhitespace(line);
    if |words| >= 4 {
      PartsIff(words, r);
      AddrPortIffSpelled(words[2], r.srcIp, r.srcPort);
      DestAddrPortIffSpelled(words[3], r.dstIp, r.dstPort, r.broadcastType);
      OptionsIffSpelled(words[4..], r.natOptions);
    }
  }

  // ---------------------------------------------------------------- the optional port

  /** An address with or without a port, as the documented grammar writes it. */
  function Field(addr: string, port: Option<string>): string {
    match port
    case None => addr
    case Some(p) => addr + ":" + p
  }

  predicate IsPortPart(port: Option<string>) {
    port.Some? && ParsePortMatcher(port.value).Some?
  }

  /** A field is two parts, the second of them a port, exactly when a port was written. */
  lemma FieldParts(addr: string, port: Option<string>)
    requires ':' !in addr
    ensures IsPortPart(port) ==> Split(Field(addr, port), ':') == [addr, port.value]
    ensures !IsPortPart(port) && |Split(Field(addr, port), ':')| == 2 ==>
              ParsePortMatcher(Split(Field(addr, port), ':')[1]).None?
  {
    match port
    case None => SplitNone(addr, ':');
    case Some(p) =>
      SplitCons(addr, p, ':');
      if ':' !in p {
        SplitNone(p, ':');
      } else {
        JoinSplit(p, ':');
        if ParsePortMatcher(p).Some? {
          PortIffSpelled(p, ParsePortMatcher(p).value);
        }
      }
  }

  lemma FieldAccepted(addr: string, port: Option<string>)
    ensures ParseIpMatcher(addr).Some? ==> (ParseAddrPort(Field(addr, port)).Some? <==> IsPortPart(port))
    ensures ParseDestIp(addr).Some? ==> (ParseDestAddrPort(Field(addr, port)).Some? <==> IsPortPart(port))
  {
    if ParseIpMatcher(addr).Some? {
      IpIffSpelled(addr, ParseIpMatcher(addr).value);
      FieldParts(addr, port);
    }
    if ParseDestIp(addr).Some? {
      DestIffSpelled(addr, ParseDestIp(addr).value.0, ParseDestIp(addr).value.1);
      FieldParts(addr, port);
    }
  }

  /** The documented grammar writes both ports as optional. A rule of that grammar, valid in everything
      else, is accepted exactly when both are there and valid. */
  lemma PortsAreMandatory(action: string, protocol: string, src: string, srcPort: Option<string>,
                          dst: string, dstPort: Option<string>, options: seq<string>)
    requires ParseAction(action).Some? && ParseProtocol(protocol).Some?
    requires ParseIpMatcher(src).Some? && ParseDestIp(dst).Some?
    requires NatOptionsOf(options).Some? && (action == "deny" ==> options == [])
    ensures RuleOfParts([action, protocol, Field(src, srcPort), Field(dst, dstPort)] + options).Some?
            <==> IsPortPart(srcPort) && IsPortPart(dstPort)
  {
    var words := [action, protocol, Field(src, srcPort), Field(dst, dstPort)] + options;
    assert words[4..] == options;
    FieldAccepted(src, srcPort);
    FieldAccepted(dst, dstPort);
  }
}
