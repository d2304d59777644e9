/**
 * Reference definitions for the gateway selector: which gateway a region
 * prefers, stated without the running-best loop of the implementation, and
 * the properties of that choice.
 */
module Selection {
  import opened Wrappers
  import opened Gateways

  // ---------------------------------------------------------------------
  // First match and first minimum over a sequence
  // ---------------------------------------------------------------------

  /** Index of the first element satisfying `p` (Rust's `Iterator::position`). */
  function FirstIndex<T>(s: seq<T>, p: T -> bool): (r: Option<nat>)
    ensures r.Some? ==> r.value < |s| && p(s[r.value])
    ensures r.Some? ==> forall k :: 0 <= k < r.value ==> !p(s[k])
    ensures r.None? <==> forall k :: 0 <= k < |s| ==> !p(s[k])
    decreases |s|
  {
    if |s| == 0 then None
    else if p(s[0]) then Some(0)
    else
      match FirstIndex(s[1..], p)
      case Some(k) => Some(k + 1)
      case None => None
  }

  /**
   * Index of the first minimal key: a running scan that replaces its best
   * only on a strictly smaller key.
   */
  function ArgMinFirst(keys: seq<int>): (k: nat)
    requires |keys| > 0
    ensures k < |keys|
    decreases |keys|
  {
    if |keys| == 1 then 0
    else
      var k := ArgMinFirst(keys[..|keys| - 1]);
      if keys[|keys| - 1] < keys[k] then |keys| - 1 else k
  }

  /**
   * The scan finds the first of several equal minima, which is also what
   * Rust's `min_by_key` returns.
   */
  lemma {:induction false} ArgMinFirstIsFirstMinimum(keys: seq<int>)
    requires |keys| > 0
    ensures forall i :: 0 <= i < |keys| ==> keys[ArgMinFirst(keys)] <= keys[i]
    ensures forall i :: 0 <= i < ArgMinFirst(keys) ==> keys[ArgMinFirst(keys)] < keys[i]
    decreases |keys|
  {
    if |keys| > 1 {
      var front := keys[..|keys| - 1];
      ArgMinFirstIsFirstMinimum(front);
      assert forall i :: 0 <= i < |front| ==> front[i] == keys[i];
    }
  }

  /** The first-minimum index is determined by the two properties above. */
  lemma ArgMinFirstUnique(keys: seq<int>, k: nat)
    requires k < |keys|
    requires forall i :: 0 <= i < |keys| ==> keys[k] <= keys[i]
    requires forall i :: 0 <= i < k ==> keys[k] < keys[i]
    ensures ArgMinFirst(keys) == k
  {
    ArgMinFirstIsFirstMinimum(keys);
  }

  /** The baseline priorities of the gateways, in list order. */
  function BasePriorities(gws: seq<Gateway>): (ps: seq<int>)
    ensures |ps| == |gws|
    ensures forall i :: 0 <= i < |gws| ==> ps[i] == gws[i].priority
  {
    seq(|gws|, i requires 0 <= i < |gws| => gws[i].priority)
  }

  // ---------------------------------------------------------------------
  // Region rules in scan order
  // ---------------------------------------------------------------------

  /** A rule speaks for the region when it names it or the "Any" sentinel. */
  predicate RuleApplies(rule: PriorityRule, region: string) {
    rule.name == region || rule.name == ANY_REGION
  }

  /**
   * A rule can win the scan only when it applies and its priority is below
   * the `u32::MAX` starting threshold.
   */
  predicate Qualifies(rule: PriorityRule, region: string) {
    RuleApplies(rule, region) && rule.priority < U32_MAX
  }

  /** Rule `j` of gateway `i` exists and qualifies for the region. */
  ghost predicate IsQualifyingPos(gws: seq<Gateway>, region: string, i: int, j: int) {
    0 <= i < |gws| && 0 <= j < |gws[i].priorityRules| && Qualifies(gws[i].priorityRules[j], region)
  }

  ghost predicate HasQualifyingRule(gws: seq<Gateway>, region: string) {
    exists i, j :: IsQualifyingPos(gws, region, i, j)
  }

  /** Position (i, j) comes before (i2, j2) in gateway-then-rule order. */
  predicate ScanBefore(i: int, j: int, i2: int, j2: int) {
    i < i2 || (i == i2 && j < j2)
  }

  function RulePriority(gws: seq<Gateway>, i: nat, j: nat): int
    requires i < |gws| && j < |gws[i].priorityRules|
  {
    gws[i].priorityRules[j].priority
  }

  /**
   * The declarative meaning of "the preferred rule": it qualifies, no
   * qualifying rule has a lower priority, and every qualifying rule scanned
   * before it has a strictly higher priority (ties go to the first).
   */
  ghost predicate IsRegionWinner(gws: seq<Gateway>, region: string, i: nat, j: nat) {
    && IsQualifyingPos(gws, region, i, j)
    && (forall i', j' :: IsQualifyingPos(gws, region, i', j')
          ==> RulePriority(gws, i, j) <= RulePriority(gws, i', j'))
    && (forall i', j' :: IsQualifyingPos(gws, region, i', j') && ScanBefore(i', j', i, j)
          ==> RulePriority(gws, i, j) < RulePriority(gws, i', j'))
  }

  /** A qualifying rule, remembered with its position in the scan. */
  datatype Candidate = Candidate(gateway: nat, rule: nat, priority: int)

  ghost predicate IsCandidateOf(gws: seq<Gateway>, region: string, c: Candidate) {
    IsQualifyingPos(gws, region, c.gateway, c.rule) && c.priority == RulePriority(gws, c.gateway, c.rule)
  }

  /** The qualifying rules among the first `m` rules of gateway `i`, in order. */
  function RuleCandidates(gws: seq<Gateway>, region: string, i: nat, m: nat): seq<Candidate>
    requires i < |gws| && m <= |gws[i].priorityRules|
    decreases m
  {
    if m == 0 then []
    else
      var rule := gws[i].priorityRules[m - 1];
      RuleCandidates(gws, region, i, m - 1)
        + (if Qualifies(rule, region) then [Candidate(i, m - 1, rule.priority)] else [])
  }

  /** The qualifying rules of the first `n` gateways, in scan order. */
  function CandidatesUpTo(gws: seq<Gateway>, region: string, n: nat): seq<Candidate>
    requires n <= |gws|
    decreases n
  {
    if n == 0 then []
    else CandidatesUpTo(gws, region, n - 1) + RuleCandidates(gws, region, n - 1, |gws[n - 1].priorityRules|)
  }

  function Candidates(gws: seq<Gateway>, region: string): seq<Candidate> {
    CandidatesUpTo(gws, region, |gws|)
  }

  /** Every rule candidate is a qualifying rule of gateway `i`, in rule order. */
  lemma {:induction false} RuleCandidatesSound(gws: seq<Gateway>, region: string, i: nat, m: nat)
    requires i < |gws| && m <= |gws[i].priorityRules|
    ensures var cs := RuleCandidates(gws, region, i, m);
      && (forall c :: c in cs ==> IsCandidateOf(gws, region, c) && c.gateway == i && c.rule < m)
      && (forall s, t :: 0 <= s < t < |cs| ==> cs[s].rule < cs[t].rule)
    decreases m
  {
    if m > 0 {
      RuleCandidatesSound(gws, region, i, m - 1);
    }
  }

  /** Every candidate is a qualifying rule, and candidates follow scan order. */
  lemma {:induction false} CandidatesSound(gws: seq<Gateway>, region: string, n: nat)
    requires n <= |gws|
    ensures var cs := CandidatesUpTo(gws, region, n);
      && (forall c :: c in cs ==> IsCandidateOf(gws, region, c) && c.gateway < n)
      && (forall s, t :: 0 <= s < t < |cs| ==> ScanBefore(cs[s].gateway, cs[s].rule, cs[t].gateway, cs[t].rule))
    decreases n
  {
    if n > 0 {
      CandidatesSound(gws, region, n - 1);
      var front := CandidatesUpTo(gws, region, n - 1);
      var last := RuleCandidates(gws, region, n - 1, |gws[n - 1].priorityRules|);
      RuleCandidatesSound(gws, region, n - 1, |gws[n - 1].priorityRules|);
      assert forall s :: 0 <= s < |front| ==> front[s] in front;
      assert forall t :: 0 <= t < |last| ==> last[t] in last;
    }
  }

  function PrioritiesOf(cs: seq<Candidate>): (ps: seq<int>)
    ensures |ps| == |cs|
    ensures forall t :: 0 <= t < |cs| ==> ps[t] == cs[t].priority
  {
    seq(|cs|, t requires 0 <= t < |cs| => cs[t].priority)
  }

  /**
   * Reference definition of the preferred gateway: among the qualifying
   * rules in scan order, the first of minimal priority decides; without one,
   * the first gateway of minimal baseline priority.
   */
  function PreferredIndex(gws: seq<Gateway>, region: string): (k: nat)
    requires |gws| > 0
    ensures k < |gws|
  {
    var cs := Candidates(gws, region);
    if |cs| == 0 then ArgMinFirst(BasePriorities(gws))
    else
      var t := ArgMinFirst(PrioritiesOf(cs));
      CandidatesSound(gws, region, |gws|);
      assert cs[t] in cs;
      cs[t].gateway
  }

  // ---------------------------------------------------------------------
  // Properties of the reference definition
  // ---------------------------------------------------------------------

  lemma {:induction false} RuleCandidatesComplete(gws: seq<Gateway>, region: string, i: nat, m: nat, j: nat)
    requires i < |gws| && j < m <= |gws[i].priorityRules|
    requires Qualifies(gws[i].priorityRules[j], region)
    ensures Candidate(i, j, RulePriority(gws, i, j)) in RuleCandidates(gws, region, i, m)
    decreases m
  {
    if j < m - 1 {
      RuleCandidatesComplete(gws, region, i, m - 1, j);
    }
  }

  /** Every qualifying rule is a candidate. */
  lemma {:induction false} CandidatesComplete(gws: seq<Gateway>, region: string, n: nat, i: nat, j: nat)
    requires n <= |gws| && i < n
    requires IsQualifyingPos(gws, region, i, j)
    ensures Candidate(i, j, RulePriority(gws, i, j)) in CandidatesUpTo(gws, region, n)
    decreases n
  {
    if i < n - 1 {
      CandidatesComplete(gws, region, n - 1, i, j);
    } else {
      RuleCandidatesComplete(gws, region, i, |gws[i].priorityRules|, j);
    }
  }

  /** There is a candidate exactly when some rule qualifies. */
  lemma CandidatesNonEmptyIff(gws: seq<Gateway>, region: string)
    ensures |Candidates(gws, region)| > 0 <==> HasQualifyingRule(gws, region)
  {
    var cs := Candidates(gws, region);
    CandidatesSound(gws, region, |gws|);
    if |cs| > 0 {
      assert cs[0] in cs;
      assert IsQualifyingPos(gws, region, cs[0].gateway, cs[0].rule);
    }
    if HasQualifyingRule(gws, region) {
      var i, j :| IsQualifyingPos(gws, region, i, j);
      CandidatesComplete(gws, region, |gws|, i, j);
    }
  }

  /**
   * When some rule qualifies, the preferred gateway owns the first rule in
   * gateway-then-rule order of minimal priority: a later rule of equal
   * priority never displaces it.
   */
  lemma PreferredByRegionRule(gws: seq<Gateway>, region: string)
    requires |gws| > 0
    requires HasQualifyingRule(gws, region)
    ensures exists j :: IsRegionWinner(gws, region, PreferredIndex(gws, region), j)
  {
    CandidatesNonEmptyIff(gws, region);
    CandidatesSound(gws, region, |gws|);
    var cs := Candidates(gws, region);
    var ps := PrioritiesOf(cs);
    ArgMinFirstIsFirstMinimum(ps);
    var t := ArgMinFirst(ps);
    var w := cs[t];
    assert w in cs;
    assert PreferredIndex(gws, region) == w.gateway;
    forall i', j' | IsQualifyingPos(gws, region, i', j')
      ensures RulePriority(gws, w.gateway, w.rule) <= RulePriority(gws, i', j')
      ensures ScanBefore(i', j', w.gateway, w.rule) ==> RulePriority(gws, w.gateway, w.rule) < RulePriority(gws, i', j')
    {
      CandidatesComplete(gws, region, |gws|, i', j');
      var u :| 0 <= u < |cs| && cs[u] == Candidate(i', j', RulePriority(gws, i', j'));
      if ScanBefore(i', j', w.gateway, w.rule) {
        assert u != t;
      }
    }
    assert IsRegionWinner(gws, region, w.gateway, w.rule);
  }

  /** The declarative winner is unique, so the reference definition is the only answer. */
  lemma RegionWinnerUnique(gws: seq<Gateway>, region: string, i1: nat, j1: nat, i2: nat, j2: nat)
    requires IsRegionWinner(gws, region, i1, j1)
    requires IsRegionWinner(gws, region, i2, j2)
    ensures i1 == i2 && j1 == j2
  {
  }

  /**
   * When no rule names the region or "Any" with a priority below
   * `u32::MAX`, the preferred gateway is the first one of minimal baseline
   * priority. In particular a rule of priority `u32::MAX` is never chosen.
   */
  lemma PreferredByBaseline(gws: seq<Gateway>, region: string)
    requires |gws| > 0
    requires !HasQualifyingRule(gws, region)
    ensures var k := PreferredIndex(gws, region);
      && (forall i :: 0 <= i < |gws| ==> gws[k].priority <= gws[i].priority)
      && (forall i :: 0 <= i < k ==> gws[k].priority < gws[i].priority)
  {
    CandidatesNonEmptyIff(gws, region);
    ArgMinFirstIsFirstMinimum(BasePriorities(gws));
  }

  /**
   * A gateway owning a qualifying rule whose priority is below that of every
   * qualifying rule of every other gateway is preferred, wherever it stands
   * in the list.
   */
  lemma LowestRuleOwnerWins(gws: seq<Gateway>, region: string, i: nat, j: nat)
    requires IsQualifyingPos(gws, region, i, j)
    requires forall i', j' :: IsQualifyingPos(gws, region, i', j') && i' != i
               ==> RulePriority(gws, i, j) < RulePriority(gws, i', j')
    ensures PreferredIndex(gws, region) == i
  {
    PreferredByRegionRule(gws, region);
    var k := PreferredIndex(gws, region);
    var jk :| IsRegionWinner(gws, region, k, jk);
    assert RulePriority(gws, k, jk) <= RulePriority(gws, i, j);
  }

  // ---------------------------------------------------------------------
  // The single swap of sort_gateways
  // ---------------------------------------------------------------------

  /** `Vec::swap(0, i)`. */
  function SwapFront(s: seq<Gateway>, i: nat): (r: seq<Gateway>)
    requires i < |s|
    ensures |r| == |s|
  {
    s[0 := s[i]][i := s[0]]
  }

  /**
   * The swap exchanges positions 0 and `i` and leaves every other position
   * as it was; it is a permutation, and the identity when `i` is 0.
   */
  lemma SwapFrontExchanges(s: seq<Gateway>, i: nat)
    requires i < |s|
    ensures SwapFront(s, i)[0] == s[i] && SwapFront(s, i)[i] == s[0]
    ensures forall k :: 0 <= k < |s| && k != 0 && k != i ==> SwapFront(s, i)[k] == s[k]
    ensures multiset(SwapFront(s, i)) == multiset(s)
    ensures i == 0 ==> SwapFront(s, i) == s
  {
    if i != 0 {
      var r1 := s[0 := s[i]];
      assert multiset(r1) == multiset(s) - multiset{s[0]} + multiset{s[i]};
      assert r1[i] == s[i];
      assert multiset(r1[i := s[0]]) == multiset(r1) - multiset{s[i]} + multiset{s[0]};
    }
  }

  /** The index `sort_gateways` swaps with 0: the first gateway named like the preferred one. */
  function PreferredPosition(gws: seq<Gateway>, region: string): (i: nat)
    requires |gws| > 0
    ensures i <= PreferredIndex(gws, region)
    ensures gws[i].name == gws[PreferredIndex(gws, region)].name
    ensures forall k :: 0 <= k < i ==> gws[k].name != gws[PreferredIndex(gws, region)].name
  {
    var name := gws[PreferredIndex(gws, region)].name;
    FirstIndex(gws, (g: Gateway) => g.name == name).value
  }

  /** The gateway list after `sort_gateways(region)`. */
  function SortedForRegion(gws: seq<Gateway>, region: string): (r: seq<Gateway>)
    requires |gws| > 0
    ensures |r| == |gws|
  {
    SwapFront(gws, PreferredPosition(gws, region))
  }

  /**
   * After sorting, the front gateway carries the preferred gateway's name.
   * Because the index is found by name, it is the preferred gateway itself
   * whenever no earlier gateway shares that name.
   */
  lemma SortedFrontIsPreferred(gws: seq<Gateway>, region: string)
    requires |gws| > 0
    ensures SortedForRegion(gws, region)[0].name == gws[PreferredIndex(gws, region)].name
    ensures (forall k :: 0 <= k < PreferredIndex(gws, region) ==> gws[k].name != gws[PreferredIndex(gws, region)].name)
              ==> SortedForRegion(gws, region)[0] == gws[PreferredIndex(gws, region)]
  {
    SwapFrontExchanges(gws, PreferredPosition(gws, region));
  }
}
