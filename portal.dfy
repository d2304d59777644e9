/**
 * `PortalConfig`: the assembled portal configuration and its gateway
 * selector. Only the gateway list changes after construction, and only by
 * the single swap of `SortGateways`.
 */
module Portal {
  import opened Wrappers
  import opened Gateways
  import opened Selection

  /** The input credential; this core reads only its username and its form parameters. */
  datatype Credential = Credential(username: string, params: map<string, string>)

  /** The session token derived from the portal's answer. */
  datatype AuthCookieCredential = AuthCookieCredential(username: string, userAuthCookie: string, prelogonUserAuthCookie: string)

  /** A gateway is found by either of its two match keys, exactly. */
  predicate MatchesKey(g: Gateway, nameOrAddress: string) {
    g.name == nameOrAddress || g.address == nameOrAddress
  }

  class PortalConfig {
    const portal: string
    const authCookie: AuthCookieCredential
    const configCred: Credential
    var gateways: seq<Gateway>
    const configDigest: Option<string>

    /** A returned configuration always has at least one gateway. */
    ghost predicate Valid()
      reads this
    {
      |gateways| > 0
    }

    constructor (portal: string, authCookie: AuthCookieCredential, configCred: Credential,
                 gateways: seq<Gateway>, configDigest: Option<string>)
      requires |gateways| > 0
      ensures Valid()
      ensures this.portal == portal && this.authCookie == authCookie && this.configCred == configCred
      ensures this.gateways == gateways && this.configDigest == configDigest
    {
      this.portal := portal;
      this.authCookie := authCookie;
      this.configCred := configCred;
      this.gateways := gateways;
      this.configDigest := configDigest;
    }

    /**
     * The first gateway whose name or address equals the key; `None`
     * exactly when no gateway matches on either field.
     */
    function FindGateway(nameOrAddress: string): (r: Option<Gateway>)
      reads this
      ensures r.None? <==> forall k :: 0 <= k < |gateways| ==> !MatchesKey(gateways[k], nameOrAddress)
      ensures r.Some? ==> exists k :: 0 <= k < |gateways| && gateways[k] == r.value
                            && MatchesKey(gateways[k], nameOrAddress)
                            && forall k' :: 0 <= k' < k ==> !MatchesKey(gateways[k'], nameOrAddress)
    {
      match FirstIndex(gateways, (g: Gateway) => MatchesKey(g, nameOrAddress))
      case Some(k) => Some(gateways[k])
      case None => None
    }

    /**
     * The running-best scan: a rule for the region or "Any" replaces the
     * best gateway only with a priority strictly below the current
     * threshold, which starts at `u32::MAX`; without any replacement, the
     * first gateway of minimal baseline priority.
     */
    method FindPreferredGateway(region: string) returns (g: Gateway)
      requires Valid()
      ensures g == gateways[PreferredIndex(gateways, region)]
    {
      var gws := gateways;
      var preferred: Option<nat> := None;
      var lowest: U32 := U32_MAX;
      var i: nat := 0;
      while i < |gws|
        invariant 0 <= i <= |gws|
        invariant ScannedGateways(gws, region, i, preferred, lowest)
      {
        var gateway := gws[i];
        var j: nat := 0;
        ScanGatewayStart(gws, region, i, preferred, lowest);
        while j < |gateway.priorityRules|
          invariant 0 <= j <= |gateway.priorityRules|
          invariant ScannedRules(gws, region, i, j, preferred, lowest)
        {
          var rule := gateway.priorityRules[j];
          ghost var before, threshold := preferred, lowest;
          if (rule.name == region || rule.name == ANY_REGION) && rule.priority < lowest {
            preferred := Some(i);
            lowest := rule.priority;
          }
          ScanRule(gws, region, i, j, before, threshold, preferred, lowest);
          j := j + 1;
        }
        ScanGatewayDone(gws, region, i, preferred, lowest);
        i := i + 1;
      }
      ScanResult(gws, region, preferred, lowest);
      if preferred.Some? {
        g := gws[preferred.value];
      } else {
        g := gws[ArgMinFirst(BasePriorities(gws))];
      }
    }

    /**
     * Swaps position 0 with the first gateway named like the preferred one;
     * every other position keeps its gateway, and nothing but the list changes.
     */
    method SortGateways(region: string)
      requires Valid()
      modifies this`gateways
      ensures Valid()
      ensures gateways == SortedForRegion(old(gateways), region)
    {
      var preferred := FindPreferredGateway(region);
      var index := FirstIndex(gateways, (g: Gateway) => g.name == preferred.name);
      assert gateways[PreferredIndex(gateways, region)].name == preferred.name;
      gateways := SwapFront(gateways, index.value);
    }
  }

  /**
   * What the selector's loop knows after scanning the candidates `cs`: no
   * best yet and the `u32::MAX` threshold, or the owner and priority of the
   * first minimal candidate.
   */
  ghost predicate ScanState(cs: seq<Candidate>, preferred: Option<nat>, lowest: int) {
    if |cs| == 0 then preferred == None && lowest == U32_MAX
    else
      var t := ArgMinFirst(PrioritiesOf(cs));
      preferred == Some(cs[t].gateway) && lowest == cs[t].priority
  }

  /** The loop state after the first `i` gateways. */
  ghost predicate ScannedGateways(gws: seq<Gateway>, region: string, i: nat, preferred: Option<nat>, lowest: int) {
    i <= |gws| && ScanState(CandidatesUpTo(gws, region, i), preferred, lowest)
  }

  /** The loop state after the first `i` gateways and the first `j` rules of gateway `i`. */
  ghost predicate ScannedRules(gws: seq<Gateway>, region: string, i: nat, j: nat, preferred: Option<nat>, lowest: int) {
    && i < |gws| && j <= |gws[i].priorityRules|
    && ScanState(CandidatesUpTo(gws, region, i) + RuleCandidates(gws, region, i, j), preferred, lowest)
  }

  /** A candidate strictly below the threshold becomes the best. */
  lemma ScanTakes(cs: seq<Candidate>, c: Candidate, preferred: Option<nat>, lowest: int)
    requires ScanState(cs, preferred, lowest)
    requires c.priority < lowest
    ensures ScanState(cs + [c], Some(c.gateway), c.priority)
  {
    var ps := PrioritiesOf(cs + [c]);
    assert ps[..|cs|] == PrioritiesOf(cs);
    if |cs| > 0 {
      ArgMinFirstIsFirstMinimum(PrioritiesOf(cs));
    }
  }

  /** A candidate at or above the threshold leaves the best in place. */
  lemma ScanKeeps(cs: seq<Candidate>, c: Candidate, preferred: Option<nat>, lowest: int)
    requires ScanState(cs, preferred, lowest)
    requires |cs| > 0 && lowest <= c.priority
    ensures ScanState(cs + [c], preferred, lowest)
  {
    var ps := PrioritiesOf(cs + [c]);
    assert ps[..|cs|] == PrioritiesOf(cs);
    ArgMinFirstIsFirstMinimum(PrioritiesOf(cs));
    assert (cs + [c])[ArgMinFirst(PrioritiesOf(cs))] == cs[ArgMinFirst(PrioritiesOf(cs))];
  }

  /**
   * A rule for the region (or "Any") strictly below the current threshold
   * becomes the best. While no best exists the threshold is `u32::MAX`, so
   * the test `priority < lowest` is exactly "qualifies".
   */
  lemma ScanRuleTaken(gws: seq<Gateway>, region: string, i: nat, j: nat, preferred: Option<nat>, lowest: U32)
    requires i < |gws| && j < |gws[i].priorityRules|
    requires ScannedRules(gws, region, i, j, preferred, lowest)
    requires RuleApplies(gws[i].priorityRules[j], region) && gws[i].priorityRules[j].priority < lowest
    ensures ScannedRules(gws, region, i, j + 1, Some(i), gws[i].priorityRules[j].priority)
  {
    var rule := gws[i].priorityRules[j];
    var c := Candidate(i, j, rule.priority);
    var front := CandidatesUpTo(gws, region, i);
    var cs := front + RuleCandidates(gws, region, i, j);
    assert RuleCandidates(gws, region, i, j + 1) == RuleCandidates(gws, region, i, j) + [c];
    assert front + RuleCandidates(gws, region, i, j + 1) == cs + [c];
    ScanTakes(cs, c, preferred, lowest);
  }

  /** Any other rule leaves the best and the threshold as they were. */
  lemma ScanRulePassed(gws: seq<Gateway>, region: string, i: nat, j: nat, preferred: Option<nat>, lowest: U32)
    requires i < |gws| && j < |gws[i].priorityRules|
    requires ScannedRules(gws, region, i, j, preferred, lowest)
    requires !(RuleApplies(gws[i].priorityRules[j], region) && gws[i].priorityRules[j].priority < lowest)
    ensures ScannedRules(gws, region, i, j + 1, preferred, lowest)
  {
    var rule := gws[i].priorityRules[j];
    var c := Candidate(i, j, rule.priority);
    var front := CandidatesUpTo(gws, region, i);
    var cs := front + RuleCandidates(gws, region, i, j);
    if Qualifies(rule, region) {
      assert RuleCandidates(gws, region, i, j + 1) == RuleCandidates(gws, region, i, j) + [c];
      assert front + RuleCandidates(gws, region, i, j + 1) == cs + [c];
      ScanKeeps(cs, c, preferred, lowest);
    } else {
      assert RuleCandidates(gws, region, i, j + 1) == RuleCandidates(gws, region, i, j);
    }
  }

  /** One step of the inner loop, with the state before and after the rule. */
  lemma ScanRule(gws: seq<Gateway>, region: string, i: nat, j: nat,
                 preferred: Option<nat>, lowest: U32, preferred': Option<nat>, lowest': int)
    requires i < |gws| && j < |gws[i].priorityRules|
    requires ScannedRules(gws, region, i, j, preferred, lowest)
    requires if RuleApplies(gws[i].priorityRules[j], region) && gws[i].priorityRules[j].priority < lowest
             then preferred' == Some(i) && lowest' == gws[i].priorityRules[j].priority
             else preferred' == preferred && lowest' == lowest
    ensures ScannedRules(gws, region, i, j + 1, preferred', lowest')
  {
    if RuleApplies(gws[i].priorityRules[j], region) && gws[i].priorityRules[j].priority < lowest {
      ScanRuleTaken(gws, region, i, j, preferred, lowest);
    } else {
      ScanRulePassed(gws, region, i, j, preferred, lowest);
    }
  }

  lemma ScanGatewayStart(gws: seq<Gateway>, region: string, i: nat, preferred: Option<nat>, lowest: int)
    requires i < |gws|
    requires ScannedGateways(gws, region, i, preferred, lowest)
    ensures ScannedRules(gws, region, i, 0, preferred, lowest)
  {
    assert CandidatesUpTo(gws, region, i) + RuleCandidates(gws, region, i, 0) == CandidatesUpTo(gws, region, i);
  }

  lemma ScanGatewayDone(gws: seq<Gateway>, region: string, i: nat, preferred: Option<nat>, lowest: int)
    requires i < |gws|
    requires ScannedRules(gws, region, i, |gws[i].priorityRules|, preferred, lowest)
    ensures ScannedGateways(gws, region, i + 1, preferred, lowest)
  {
  }

  /** At the end of the scan the state names the reference choice. */
  lemma ScanResult(gws: seq<Gateway>, region: string, preferred: Option<nat>, lowest: int)
    requires |gws| > 0
    requires ScannedGateways(gws, region, |gws|, preferred, lowest)
    ensures preferred.Some? ==> preferred.value == PreferredIndex(gws, region)
    ensures preferred.None? ==> ArgMinFirst(BasePriorities(gws)) == PreferredIndex(gws, region)
  {
  }
}
