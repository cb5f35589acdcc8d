/** The strict configuration parser (src/config.rs). A rejected rule is None; what the error message
    says beyond the line number is not modelled. */
module ConfigParser {
  import opened Net
  import opened Text
  import opened Config

  // ---------------------------------------------------------------- fields

  function ParseIpMatcher(s: string): Option<IpMatcher> {
    if s == "any" then Some(IpMatcher.Any)
    else if '/' in s then
      var parts := Split(s, '/');
      if |parts| != 2 then None
      else
        match (ParseIpv4(parts[0]), ParseUint(parts[1], 0xFFFF_FFFF))
        case (Some(addr), Some(n)) => if n > 32 then None else Some(CidrMatcher(addr, n))
        case _ => None
    else
      match ParseIpv4(s)
      case Some(addr) => Some(IpMatcher.Exact(addr))
      case None => None
  }

  function ParsePortMatcher(s: string): Option<PortMatcher> {
    if s == "any" then Some(PortMatcher.Any)
    else if '-' in s then
      var parts := Split(s, '-');
      if |parts| != 2 then None
      else
        match (ParseUint(parts[0], 0xFFFF), ParseUint(parts[1], 0xFFFF))
        case (Some(start), Some(end)) => if start > end then None else Some(Range(start, end))
        case _ => None
    else
      match ParseUint(s, 0xFFFF)
      case Some(port) => Some(PortMatcher.Exact(port))
      case None => None
  }

  function ParseAddrPort(s: string): Option<(IpMatcher, PortMatcher)> {
    var parts := Split(s, ':');
    if |parts| != 2 then None
    else
      match (ParseIpMatcher(parts[0]), ParsePortMatcher(parts[1]))
      case (Some(ip), Some(port)) => Some((ip, port))
      case _ => None
  }

  /** The port is not optional: an address and port is exactly two valid parts around one colon. */
  lemma AddrPortIff(s: string, ip: IpMatcher, port: PortMatcher)
    ensures ParseAddrPort(s) == Some((ip, port))
            <==> exists x, y :: IsPair(s, x, y) && ParseIpMatcher(x) == Some(ip) && ParsePortMatcher(y) == Some(port)
  {
    var parts := Split(s, ':');
    JoinSplit(s, ':');
    if |parts| == 2 {
      assert parts[1..] == [parts[1]];
      assert IsPair(s, parts[0], parts[1]);
    }
    forall x, y | IsPair(s, x, y)
      ensures parts == [x, y]
    {
      SplitTwo(x, y, ':');
    }
  }

  predicate IsPair(s: string, x: string, y: string) {
    ':' !in x && ':' !in y && s == x + ":" + y
  }

  function ParseDestIp(s: string): Option<(IpMatcher, BroadcastType)> {
    if s == "255.255.255.255" then Some((IpMatcher.Exact(LIMITED_BROADCAST), Limited))
    else if s == "directed" then Some((IpMatcher.Any, Directed))
    else if s == "any" then Some((IpMatcher.Any, BroadcastType.Any))
    else
      match ParseIpMatcher(s)
      case Some(ip) => Some((ip, BroadcastType.Any))
      case None => None
  }

  function ParseDestAddrPort(s: string): Option<(IpMatcher, PortMatcher, BroadcastType)> {
    var parts := Split(s, ':');
    if |parts| != 2 then None
    else
      match (ParsePortMatcher(parts[1]), ParseDestIp(parts[0]))
      case (Some(port), Some((ip, kind))) => Some((ip, port, kind))
      case _ => None
  }

  lemma DestAddrPortIff(s: string, ip: IpMatcher, port: PortMatcher, kind: BroadcastType)
    ensures ParseDestAddrPort(s) == Some((ip, port, kind))
            <==> exists x, y ::
                   IsPair(s, x, y) && ParseDestIp(x) == Some((ip, kind)) && ParsePortMatcher(y) == Some(port)
  {
    var parts := Split(s, ':');
    JoinSplit(s, ':');
    if |parts| == 2 {
      assert parts[1..] == [parts[1]];
      assert IsPair(s, parts[0], parts[1]);
    }
    forall x, y | IsPair(s, x, y)
      ensures parts == [x, y]
    {
      SplitTwo(x, y, ':');
    }
  }

  function ParseAction(s: string): Option<Action> {
    if s == "allow" then Some(Allow) else if s == "deny" then Some(Deny) else None
  }

  function ParseProtocol(s: string): Option<Protocol> {
    if s == "udp" then Some(Udp) else if s == "any" then Some(Protocol.Any) else None
  }

  // ---------------------------------------------------------------- NAT options

  /** The options so far with one more word applied, unless the word is unknown or malformed. */
  function AddOption(o: NatOptions, word: string): Option<NatOptions> {
    if "snat=" <= word then
      match ParseIpv4(word[5..])
      case Some(a) => Some(o.(sourceIp := Some(a)))
      case None => None
    else if "dnat=" <= word then
      match ParseIpv4(word[5..])
      case Some(a) => Some(o.(destIp := Some(a)))
      case None => None
    else if "sport=" <= word then
      match ParseUint(word[6..], 0xFFFF)
      case Some(p) => Some(o.(sourcePort := Some(p)))
      case None => None
    else if "dport=" <= word then
      match ParseUint(word[6..], 0xFFFF)
      case Some(p) => Some(o.(destPort := Some(p)))
      case None => None
    else None
  }

  function NatOptionsOf(words: seq<string>): Option<NatOptions> {
    if |words| == 0 then Some(NO_NAT)
    else
      match NatOptionsOf(words[..|words| - 1])
      case Some(o) => AddOption(o, words[|words| - 1])
      case None => None
  }

  /** What follows `key` in the last word that starts with it. */
  function LastValue(words: seq<string>, key: string): Option<string> {
    if |words| == 0 then None
    else
      var w := words[|words| - 1];
      if key <= w then Some(w[|key|..]) else LastValue(words[..|words| - 1], key)
  }

  function ParsedAddr(v: Option<string>): Option<Ipv4Addr> {
    match v case Some(s) => ParseIpv4(s) case None => None
  }

  function ParsedPort(v: Option<string>): Option<u16> {
    match v
    case Some(s) => (match ParseUint(s, 0xFFFF) case Some(p) => Some(p) case None => None)
    case None => None
  }

  /** The options that the last values of each kind spell. */
  function LastOptions(words: seq<string>): NatOptions {
    NatOptions(ParsedAddr(LastValue(words, "snat=")), ParsedAddr(LastValue(words, "dnat=")),
               ParsedPort(LastValue(words, "sport=")), ParsedPort(LastValue(words, "dport=")))
  }

  predicate IsOption(word: string) {
    AddOption(NO_NAT, word).Some?
  }

  lemma LastOptionsStep(words: seq<string>, w: string)
    ensures AddOption(LastOptions(words), w).Some? <==> IsOption(w)
    ensures IsOption(w) ==> AddOption(LastOptions(words), w) == Some(LastOptions(words + [w]))
  {
    DistinctKeys(w);
    LastValueStep(words, w, "snat=");
    LastValueStep(words, w, "dnat=");
    LastValueStep(words, w, "sport=");
    LastValueStep(words, w, "dport=");
  }

  lemma LastValueStep(words: seq<string>, w: string, key: string)
    ensures LastValue(words + [w], key) == if key <= w then Some(w[|key|..]) else LastValue(words, key)
  {
    assert (words + [w])[..|words|] == words;
  }

  /** NAT options are accepted exactly when every word is a known option with a valid value; each
      field then holds the value of its last option and is unset if there is none. */
  lemma {:induction false} NatOptionsMeaning(words: seq<string>)
    ensures NatOptionsOf(words).Some? <==> forall i | 0 <= i < |words| :: IsOption(words[i])
    ensures NatOptionsOf(words).Some? ==> NatOptionsOf(words).value == LastOptions(words)
  {
    if |words| == 0 {
    } else {
      var init, w := words[..|words| - 1], words[|words| - 1];
      NatOptionsMeaning(init);
      LastOptionsStep(init, w);
      assert words == init + [w];
    }
  }

  lemma DistinctKeys(w: string)
    ensures "snat=" <= w ==> !("dnat=" <= w) && !("sport=" <= w) && !("dport=" <= w)
    ensures "dnat=" <= w ==> !("sport=" <= w) && !("dport=" <= w)
    ensures "sport=" <= w ==> !("dport=" <= w)
  {
    if "snat=" <= w { assert w[0] == 's' && w[1] == 'n'; }
    if "dnat=" <= w { assert w[0] == 'd' && w[1] == 'n'; }
    if "sport=" <= w { assert w[0] == 's' && w[1] == 'p'; }
    if "dport=" <= w { assert w[0] == 'd' && w[1] == 'p'; }
  }

  // ---------------------------------------------------------------- rules

  /** The rule that a line denotes. */
  function RuleOf(line: string): Option<Rule> {
    var parts := SplitWhitespace(line);
    if |parts| < 4 then None else RuleOfParts(parts)
  }

  function RuleOfParts(parts: seq<string>): Option<Rule>
    requires |parts| >= 4
  {
    match (ParseAction(parts[0]), ParseProtocol(parts[1]), ParseAddrPort(parts[2]),
           ParseDestAddrPort(parts[3]), NatOptionsOf(parts[4..]))
    case (Some(action), Some(protocol), Some((srcIp, srcPort)), Some((dstIp, dstPort, kind)), Some(o)) =>
      if action == Deny && o != NO_NAT then None
      else Some(Rule(action, protocol, srcIp, srcPort, dstIp, dstPort, kind, o))
    case _ => None
  }

  /** Fill in the options word by word, giving up at the first word that is not valid. */
  method ParseNatOptions(words: seq<string>) returns (r: Option<NatOptions>)
    ensures r == NatOptionsOf(words)
  {
    var o := NO_NAT;
    for i := 0 to |words|
      invariant NatOptionsOf(words[..i]) == Some(o)
    {
      assert words[..i + 1][..i] == words[..i];
      match AddOption(o, words[i]) {
        case None =>
          RejectedPrefix(words, i + 1);
          return None;
        case Some(next) =>
          o := next;
      }
    }
    assert words[..|words|] == words;
    return Some(o);
  }

  /** Parse one line, word by word, giving up at the first word that is not valid. */
  method ParseRule(line: string) returns (r: Option<Rule>)
    ensures r == RuleOf(line)
  {
    var parts := SplitWhitespace(line);
    if |parts| < 4 {
      return None;
    }
    var action := ParseAction(parts[0]);
    if action.None? {
      return None;
    }
    var protocol := ParseProtocol(parts[1]);
    if protocol.None? {
      return None;
    }
    var src := ParseAddrPort(parts[2]);
    if src.None? {
      return None;
    }
    var dst := ParseDestAddrPort(parts[3]);
    if dst.None? {
      return None;
    }
    var options := ParseNatOptions(parts[4..]);
    if options.None? {
      return None;
    }
    var o := options.value;
    if action.value == Deny
       && (o.sourceIp.Some? || o.destIp.Some? || o.sourcePort.Some? || o.destPort.Some?) {
      return None;
    }
    var (srcIp, srcPort) := src.value;
    var (dstIp, dstPort, kind) := dst.value;
    return Some(Rule(action.value, protocol.value, srcIp, srcPort, dstIp, dstPort, kind, o));
  }

  lemma {:induction false} RejectedPrefix(words: seq<string>, n: nat)
    requires n <= |words| && NatOptionsOf(words[..n]).None?
    ensures NatOptionsOf(words).None?
  {
    if n < |words| {
      assert words[..|words| - 1][..n] == words[..n];
      RejectedPrefix(words[..|words| - 1], n);
    } else {
      assert words[..n] == words;
    }
  }

  /** Only the words of a line matter, not the white space between or around them. */
  lemma WhitespaceIsIrrelevant(line: string)
    ensures SplitWhitespace(line) != [] ==> RuleOf(Join(SplitWhitespace(line), ' ')) == RuleOf(line)
    ensures SplitWhitespace(line) == [] ==> RuleOf(line) == None
  {
    if SplitWhitespace(line) != [] {
      SplitGivesTokens(line);
      SplitWhitespaceOfJoin(SplitWhitespace(line));
    }
  }

  // ---------------------------------------------------------------- files

  /** A parsed configuration or the number of the line that was rejected, counted from one. */
  datatype ParseResult = Parsed(rules: seq<Rule>) | Failed(line: nat)

  /** A line that holds a rule: its number, counted from one, and its trimmed text. */
  datatype RuleLine = RuleLine(number: nat, text: string)

  predicate IsSkipped(trimmed: string) {
    trimmed == "" || trimmed[0] == '#'
  }

  /** The lines that are neither blank nor comments, in order. */
  function RuleLines(lines: seq<string>): seq<RuleLine> {
    if |lines| == 0 then []
    else
      var n := |lines|;
      var text := Trim(lines[n - 1]);
      RuleLines(lines[..n - 1]) + if IsSkipped(text) then [] else [RuleLine(n, text)]
  }

  /** All or nothing, in order: rule `k` is the rule of the k-th rule line and there are no others,
      or else the line reported is the first rule line that denotes no rule. */
  ghost predicate IsParseOf(content: string, r: ParseResult) {
    var ls := RuleLines(Lines(content));
    match r
    case Parsed(rules) => AreRulesOf(ls, rules)
    case Failed(line) =>
      exists k :: FirstRejected(ls, k) && ls[k].number == line
  }

  predicate FirstRejected(ls: seq<RuleLine>, k: int) {
    0 <= k < |ls| && RuleOf(ls[k].text).None? && forall j | 0 <= j < k :: RuleOf(ls[j].text).Some?
  }

  /** The rules so far are those of the rule lines so far. */
  predicate AreRulesOf(ls: seq<RuleLine>, rules: seq<Rule>) {
    |rules| == |ls| && forall k | 0 <= k < |ls| :: RuleOf(ls[k].text) == Some(rules[k])
  }

  lemma RejectedAfter(before: seq<RuleLine>, rules: seq<Rule>, bad: RuleLine, all: seq<RuleLine>)
    requires AreRulesOf(before, rules) && RuleOf(bad.text).None? && before + [bad] <= all
    ensures FirstRejected(all, |before|) && all[|before|] == bad
  {
    assert all[|before|] == (before + [bad])[|before|];
    assert forall k | 0 <= k < |before| :: all[k] == (before + [bad])[k] == before[k];
  }

  method Parse(content: string) returns (r: ParseResult)
    ensures IsParseOf(content, r)
  {
    var lines := Lines(content);
    var rules := [];
    for i := 0 to |lines|
      invariant AreRulesOf(RuleLines(lines[..i]), rules)
    {
      ghost var before := RuleLines(lines[..i]);
      var line := Trim(lines[i]);
      RuleLinesStep(lines, i);
      assert before + [] == before;
      if line == "" || line[0] == '#' {
        continue;
      }
      var rule := ParseRule(line);
      if rule.None? {
        RuleLinesPrefix(lines, i + 1);
        RejectedAfter(before, rules, RuleLine(i + 1, line), RuleLines(lines));
        return Failed(i + 1);
      }
      rules := rules + [rule.value];
    }
    assert lines[..|lines|] == lines;
    return Parsed(rules);
  }

  lemma RuleLinesStep(lines: seq<string>, i: nat)
    requires i < |lines|
    ensures RuleLines(lines[..i + 1])
            == RuleLines(lines[..i]) + if IsSkipped(Trim(lines[i])) then [] else [RuleLine(i + 1, Trim(lines[i]))]
  {
    assert lines[..i + 1][..i] == lines[..i];
  }

  lemma {:induction false} RuleLinesPrefix(lines: seq<string>, n: nat)
    requires n <= |lines|
    ensures RuleLines(lines[..n]) <= RuleLines(lines)
  {
    if n < |lines| {
      var init := lines[..|lines| - 1];
      RuleLinesPrefix(init, n);
      assert init[..n] == lines[..n];
    } else {
      assert lines[..n] == lines;
    }
  }

  /** A text has only one parse. */
  lemma ParseUnique(content: string, r: ParseResult, s: ParseResult)
    requires IsParseOf(content, r) && IsParseOf(content, s)
    ensures r == s
  {
    var ls := RuleLines(Lines(content));
    if r.Failed? && s.Failed? {
      var k :| FirstRejected(ls, k) && ls[k].number == r.line;
      var j :| FirstRejected(ls, j) && ls[j].number == s.line;
      assert j == k;
    } else if r.Parsed? && s.Parsed? {
      assert forall k | 0 <= k < |ls| :: Some(r.rules[k]) == Some(s.rules[k]);
      assert r.rules == s.rules;
    }
  }

  // ---------------------------------------------------------------- what a parse says of the lines

  /** A line that is neither blank nor a comment. */
  predicate HoldsRule(line: string) {
    var t := Trim(line);
    t != "" && t[0] != '#'
  }

  /** The places, in order, of the lines that hold rules. */
  predicate ArePlaces(lines: seq<string>, at: seq<nat>) {
    && (forall k | 0 <= k < |at| :: at[k] < |lines| && HoldsRule(lines[at[k]]))
    && (forall k, l | 0 <= k < l < |at| :: at[k] < at[l])
    && (forall i | 0 <= i < |lines| && HoldsRule(lines[i]) :: i in at)
  }

  lemma PlacesExtend(init: seq<string>, line: string, at: seq<nat>)
    requires ArePlaces(init, at)
    ensures ArePlaces(init + [line], at + if HoldsRule(line) then [|init|] else [])
  {
    var more := at + if HoldsRule(line) then [|init|] else [];
    forall i | 0 <= i < |init + [line]| && HoldsRule((init + [line])[i])
      ensures i in more
    {
      if i < |init| {
        assert i in at;
      } else {
        assert more[|at|] == i;
      }
    }
  }

  /** The rule lines `ls` are the trimmed lines at these places. */
  predicate AreLinesAt(lines: seq<string>, ls: seq<RuleLine>, at: seq<nat>) {
    && ArePlaces(lines, at) && |at| == |ls|
    && forall k | 0 <= k < |at| :: ls[k] == RuleLine(at[k] + 1, Trim(lines[at[k]]))
  }

  lemma OneMoreRuleLine(init: seq<string>, line: string, ls: seq<RuleLine>, at: seq<nat>)
    requires AreLinesAt(init, ls, at)
    ensures AreLinesAt(init + [line],
                       ls + if IsSkipped(Trim(line)) then [] else [RuleLine(|init| + 1, Trim(line))],
                       at + if HoldsRule(line) then [|init|] else [])
  {
    PlacesExtend(init, line, at);
    forall k | 0 <= k < |at|
      ensures (init + [line])[at[k]] == init[at[k]]
    {
    }
  }

  lemma {:induction false} RuleLinesMeaning(lines: seq<string>) returns (at: seq<nat>)
    ensures AreLinesAt(lines, RuleLines(lines), at)
  {
    if |lines| == 0 {
      at := [];
    } else {
      var n := |lines| - 1;
      var before := RuleLinesMeaning(lines[..n]);
      OneMoreRuleLine(lines[..n], lines[n], RuleLines(lines[..n]), before);
      assert lines[..n] + [lines[n]] == lines;
      at := before + if HoldsRule(lines[n]) then [n] else [];
    }
  }

  /** All lines that hold a rule denote one, in this order. */
  predicate AllDenote(lines: seq<string>, at: seq<nat>, rules: seq<Rule>)
    requires ArePlaces(lines, at)
  {
    |rules| == |at| && forall k | 0 <= k < |at| :: RuleOf(Trim(lines[at[k]])) == Some(rules[k])
  }

  /** The n-th line, counted from one, is the first that holds a rule and denotes none. */
  predicate FirstBadLine(lines: seq<string>, n: nat) {
    && 1 <= n <= |lines|
    && HoldsRule(lines[n - 1]) && RuleOf(Trim(lines[n - 1])) == None
    && forall j | 0 <= j < n - 1 && HoldsRule(lines[j]) :: RuleOf(Trim(lines[j])).Some?
  }

  lemma ParsedMeaning(lines: seq<string>, ls: seq<RuleLine>, at: seq<nat>, rules: seq<Rule>)
    requires AreLinesAt(lines, ls, at) && AreRulesOf(ls, rules)
    ensures AllDenote(lines, at, rules)
  {
    forall k | 0 <= k < |at|
      ensures RuleOf(Trim(lines[at[k]])) == Some(rules[k])
    {
      assert RuleOf(ls[k].text) == Some(rules[k]);
    }
  }

  lemma FailedMeaning(lines: seq<string>, ls: seq<RuleLine>, at: seq<nat>, k: nat)
    requires AreLinesAt(lines, ls, at) && FirstRejected(ls, k)
    ensures FirstBadLine(lines, ls[k].number)
  {
    assert at[k] + 1 == ls[k].number;
    forall j | 0 <= j < at[k] && HoldsRule(lines[j])
      ensures RuleOf(Trim(lines[j])).Some?
    {
      EarlierLineDenotes(lines, ls, at, k, j);
    }
  }

  lemma EarlierLineDenotes(lines: seq<string>, ls: seq<RuleLine>, at: seq<nat>, k: nat, j: nat)
    requires AreLinesAt(lines, ls, at) && FirstRejected(ls, k)
    requires j < at[k] && j < |lines| && HoldsRule(lines[j])
    ensures RuleOf(Trim(lines[j])).Some?
  {
    var i := PlaceBefore(at, k, j);
    assert ls[i].text == Trim(lines[j]);
  }

  lemma PlaceBefore(at: seq<nat>, k: nat, j: nat) returns (i: nat)
    requires k < |at| && j in at && j < at[k]
    requires forall l, m | 0 <= l < m < |at| :: at[l] < at[m]
    ensures i < k && at[i] == j
  {
    i :| 0 <= i < |at| && at[i] == j;
  }

  /** What the parse of a text says of its lines: all that hold a rule denote one, in this order, or the
      number reported, counted from one, is that of the first of them that denotes none. */
  lemma ParseMeaning(content: string, r: ParseResult) returns (at: seq<nat>)
    requires IsParseOf(content, r)
    ensures ArePlaces(Lines(content), at)
    ensures r.Parsed? ==> AllDenote(Lines(content), at, r.rules)
    ensures r.Failed? ==> FirstBadLine(Lines(content), r.line)
  {
    var ls := RuleLines(Lines(content));
    at := RuleLinesMeaning(Lines(content));
    match r
    case Parsed(rules) =>
      ParsedMeaning(Lines(content), ls, at, rules);
    case Failed(n) =>
      var k :| FirstRejected(ls, k) && ls[k].number == n;
      FailedMeaning(Lines(content), ls, at, k);
  }

  /** A line whose first character that is not white space is a number sign holds no rule, nor does a
      line of white space. */
  lemma CommentsAndBlanks(blank: string, comment: string)
    requires AllBlank(blank)
    ensures !HoldsRule(blank) && !HoldsRule(blank + "#" + comment)
  {
    BlankTrimmed(blank);
    TrimmedBehindBlank(blank, "#" + comment);
    assert blank + ("#" + comment) == blank + "#" + comment;
    var rest := TrimEndMeaning("#" + comment);
    TrimEndKeepsFirst("#" + comment);
  }

  lemma {:induction false} BlankTrimmed(blank: string)
    requires AllBlank(blank)
    ensures TrimStart(blank) == ""
  {
    if |blank| == 0 {
    } else {
      BlankTrimmed(blank[1..]);
    }
  }

  lemma {:induction false} TrimmedBehindBlank(blank: string, s: string)
    requires AllBlank(blank) && s != "" && !IsWhitespace(s[0])
    ensures TrimStart(blank + s) == s
  {
    if |blank| == 0 {
      assert blank + s == s;
    } else {
      TrimmedBehindBlank(blank[1..], s);
      assert (blank + s)[1..] == blank[1..] + s;
    }
  }

  lemma {:induction false} TrimEndKeepsFirst(s: string)
    requires s != "" && !IsWhitespace(s[0])
    ensures TrimEnd(s) != "" && TrimEnd(s)[0] == s[0]
  {
    if !IsWhitespace(s[|s| - 1]) {
    } else {
      TrimEndKeepsFirst(s[..|s| - 1]);
    }
  }

  /** White space of any kind separates the words of a rule as a space does. */
  lemma AnyWhitespaceSeparates(a: string, c: char, b: string)
    requires IsWhitespace(c)
    ensures RuleOf(a + [c] + b) == RuleOf(a + " " + b)
  {
    WhitespaceSeparates(a, c, b);
    WhitespaceSeparates(a, ' ', b);
  }
}
