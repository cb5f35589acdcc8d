/** First-match evaluation of a rule list with default deny (src/filter.rs, src/config.rs). */
module Filter {
  import opened Net
  import opened Config

  /** The first rule that matches. */
  function FindMatch(rules: seq<Rule>, pkt: PacketInfo): Option<Rule> {
    if |rules| == 0 then None
    else if rules[0].Matches(pkt) then Some(rules[0])
    else FindMatch(rules[1..], pkt)
  }

  predicate ShouldRelay(rules: seq<Rule>, pkt: PacketInfo) {
    match FindMatch(rules, pkt)
    case Some(rule) => rule.action == Allow
    case None => false
  }

  function GetNatRule(rules: seq<Rule>, pkt: PacketInfo): Option<Rule> {
    match FindMatch(rules, pkt)
    case Some(rule) => if rule.action == Allow then Some(rule) else None
    case None => None
  }

  /** `rules[i]` decides the packet: it matches and no earlier rule does. */
  predicate DecidedBy(rules: seq<Rule>, pkt: PacketInfo, i: int) {
    && 0 <= i < |rules|
    && rules[i].Matches(pkt)
    && forall j | 0 <= j < i :: !rules[j].Matches(pkt)
  }

  lemma {:induction false} FindMatchIsFirst(rules: seq<Rule>, pkt: PacketInfo, i: int)
    requires DecidedBy(rules, pkt, i)
    ensures FindMatch(rules, pkt) == Some(rules[i])
  {
    if i == 0 {
    } else {
      assert !rules[0].Matches(pkt);
      FindMatchIsFirst(rules[1..], pkt, i - 1);
    }
  }

  lemma {:induction false} FindMatchDecides(rules: seq<Rule>, pkt: PacketInfo) returns (i: int)
    ensures FindMatch(rules, pkt).Some? <==> DecidedBy(rules, pkt, i)
    ensures FindMatch(rules, pkt).None? <==> forall j | 0 <= j < |rules| :: !rules[j].Matches(pkt)
  {
    if |rules| == 0 {
      i := 0;
    } else if rules[0].Matches(pkt) {
      i := 0;
    } else {
      var k := FindMatchDecides(rules[1..], pkt);
      i := k + 1;
      assert forall j | 1 <= j < |rules| :: rules[j] == rules[1..][j - 1];
      assert forall j | 0 <= j < |rules| - 1 :: rules[1..][j] == rules[j + 1];
    }
  }

  /** A packet is relayed exactly when some rule decides it and that rule allows it; the rule used for
      rewriting is then that very rule, so looking it up again cannot fail. */
  lemma RelayedIffDecidedByAllow(rules: seq<Rule>, pkt: PacketInfo)
    ensures ShouldRelay(rules, pkt) <==> exists i :: DecidedBy(rules, pkt, i) && rules[i].action == Allow
    ensures GetNatRule(rules, pkt).Some? <==> ShouldRelay(rules, pkt)
    ensures forall i | DecidedBy(rules, pkt, i) && rules[i].action == Allow ::
              GetNatRule(rules, pkt) == Some(rules[i])
  {
    var k := FindMatchDecides(rules, pkt);
    forall i | DecidedBy(rules, pkt, i)
      ensures FindMatch(rules, pkt) == Some(rules[i])
    {
      FindMatchIsFirst(rules, pkt, i);
    }
  }

  lemma {:induction false} FindMatchConcat(a: seq<Rule>, b: seq<Rule>, pkt: PacketInfo)
    ensures FindMatch(a + b, pkt) ==
            if FindMatch(a, pkt).Some? then FindMatch(a, pkt) else FindMatch(b, pkt)
  {
    if |a| == 0 {
      assert a + b == b;
    } else {
      assert (a + b)[1..] == a[1..] + b;
      FindMatchConcat(a[1..], b, pkt);
    }
  }

  /** Deny-by-default is built in: a trailing rule that denies changes no decision. */
  lemma TrailingDenyIsRedundant(rules: seq<Rule>, last: Rule, pkt: PacketInfo)
    requires last.action == Deny
    ensures ShouldRelay(rules + [last], pkt) == ShouldRelay(rules, pkt)
    ensures GetNatRule(rules + [last], pkt) == GetNatRule(rules, pkt)
  {
    FindMatchConcat(rules, [last], pkt);
    assert [last][1..] == [];
  }

  /** Rule `k` is covered: everything it matches is matched by an earlier rule. */
  ghost predicate Covered(rules: seq<Rule>, k: int)
    requires 0 <= k < |rules|
  {
    forall pkt: PacketInfo | rules[k].Matches(pkt) :: exists j :: 0 <= j < k && rules[j].Matches(pkt)
  }

  /** A rule can be deleted without changing the decision on any packet, or the rewriting applied to
      it, if earlier rules cover it. */
  lemma CoveredRuleIsRedundant(rules: seq<Rule>, k: int, pkt: PacketInfo)
    requires 0 <= k < |rules| && Covered(rules, k)
    ensures var rest := rules[..k] + rules[k + 1..];
            && ShouldRelay(rest, pkt) == ShouldRelay(rules, pkt)
            && GetNatRule(rest, pkt) == GetNatRule(rules, pkt)
  {
    assert rules == rules[..k] + ([rules[k]] + rules[k + 1..]);
    FindMatchConcat(rules[..k], [rules[k]] + rules[k + 1..], pkt);
    FindMatchConcat(rules[..k], rules[k + 1..], pkt);
    if rules[k].Matches(pkt) {
      var j :| 0 <= j < k && rules[j].Matches(pkt);
      assert rules[..k][j].Matches(pkt);
      var i := FindMatchDecides(rules[..k], pkt);
    } else {
      assert ([rules[k]] + rules[k + 1..])[1..] == rules[k + 1..];
    }
  }
}
