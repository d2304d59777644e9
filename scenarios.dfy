/**
 * Concrete situations of the selector and of the internal-host detection,
 * derived from the general lemmas.
 */
module Scenarios {
  import opened Wrappers
  import opened Gateways
  import opened Selection
  import opened HostDetection

  const REGION: string := "EU"

  /** A gateway with a rule of priority 5 for the region. */
  function RegionalGateway(): Gateway {
    Gateway("g", "g.example", 1, [PriorityRule(REGION, 5)])
  }

  /** A gateway with an "Any" rule of priority 3. */
  function AnyGateway(): Gateway {
    Gateway("h", "h.example", 9, [PriorityRule(ANY_REGION, 3)])
  }

  /** The "Any" rule of priority 3 beats the regional rule of priority 5, in either order. */
  lemma AnyRuleBeatsRegionalRule()
    ensures PreferredIndex([RegionalGateway(), AnyGateway()], REGION) == 1
    ensures PreferredIndex([AnyGateway(), RegionalGateway()], REGION) == 0
  {
    var gws1 := [RegionalGateway(), AnyGateway()];
    forall i', j' | IsQualifyingPos(gws1, REGION, i', j') && i' != 1
      ensures RulePriority(gws1, 1, 0) < RulePriority(gws1, i', j')
    {
      assert i' == 0 && j' == 0;
    }
    LowestRuleOwnerWins(gws1, REGION, 1, 0);
    var gws2 := [AnyGateway(), RegionalGateway()];
    forall i', j' | IsQualifyingPos(gws2, REGION, i', j') && i' != 0
      ensures RulePriority(gws2, 0, 0) < RulePriority(gws2, i', j')
    {
      assert i' == 1 && j' == 0;
    }
    LowestRuleOwnerWins(gws2, REGION, 0, 0);
  }

  /** A rule of priority `u32::MAX` is never chosen: the baseline minimum wins. */
  lemma MaxPriorityRuleIgnored()
    ensures PreferredIndex([Gateway("a", "a", 4, [PriorityRule(ANY_REGION, U32_MAX)]),
                            Gateway("b", "b", 2, []),
                            Gateway("c", "c", 2, [])], REGION) == 1
  {
    var gws := [Gateway("a", "a", 4, [PriorityRule(ANY_REGION, U32_MAX)]),
                Gateway("b", "b", 2, []),
                Gateway("c", "c", 2, [])];
    assert !HasQualifyingRule(gws, REGION) by {
      forall i, j | 0 <= i < |gws| && 0 <= j < |gws[i].priorityRules|
        ensures !Qualifies(gws[i].priorityRules[j], REGION)
      {
        assert i == 0 && j == 0;
      }
    }
    PreferredByBaseline(gws, REGION);
    var k := PreferredIndex(gws, REGION);
    assert gws[k].priority <= gws[1].priority;
    assert !(gws[2].priority < gws[1].priority);
  }

  /** A document announcing detection with one IPv4 pair. */
  function DetectionDoc(): Document {
    Document(map[INTERNAL_HOST_DETECTION := "yes", "ip-address" := "10.0.0.1", "host" := "vpn.example"])
  }

  /** A resolver that parses only the literal "10.0.0.1" and reverses every address to `name`. */
  function FixedResolver(name: Result<string, string>): Resolver {
    Resolver((s: string) => if s == "10.0.0.1" then Some(IpAddr([10, 0, 0, 1])) else None,
             (ip: IpAddr) => name)
  }

  /** The reverse lookup confirming the host makes the network internal. */
  lemma MatchingLookupIsInternal()
    ensures InternalNetwork(DetectionDoc(), FixedResolver(Ok("vpn.example")))
  {
    var doc := DetectionDoc();
    var pairs := HostPairs(doc);
    assert pairs[0] == HostPair(Some("10.0.0.1"), Some("vpn.example"));
    assert Confirms(pairs[0], FixedResolver(Ok("vpn.example")));
  }

  /** A different name or a failed lookup leaves the gateways external. */
  lemma MismatchOrFailureIsExternal()
    ensures !InternalNetwork(DetectionDoc(), FixedResolver(Ok("other.example")))
    ensures !InternalNetwork(DetectionDoc(), FixedResolver(Err("timeout")))
  {
    var doc := DetectionDoc();
    var pairs := HostPairs(doc);
    assert pairs[0] == HostPair(Some("10.0.0.1"), Some("vpn.example"));
    assert "other.example" != "vpn.example";
    assert pairs[1] == HostPair(None, None);
  }
}
