/**
 * Internal-host detection: whether the portal's gateways are reached from
 * inside the network, decided by confirming an address/host pair the portal
 * sends with a reverse DNS lookup.
 */
module HostDetection {
  import opened Wrappers

  /**
   * The parsed portal answer, as far as this core reads it: the text of each
   * top-level element that is present.
   */
  datatype Document = Document(children: map<string, string>)

  /** `xml::get_child_text`: the element's text, or `None` when it is absent. */
  function ChildText(doc: Document, name: string): Option<string> {
    if name in doc.children then Some(doc.children[name]) else None
  }

  const INTERNAL_HOST_DETECTION: string := "internal-host-detection"

  /** A parsed IP address, opaque to this core. */
  datatype IpAddr = IpAddr(octets: seq<int>)

  /**
   * The two foreign calls of the detection: `str::parse::<IpAddr>` and the
   * reverse lookup `lookup_addr`, which may fail.
   */
  datatype Resolver = Resolver(parseIp: string -> Option<IpAddr>, lookupAddr: IpAddr -> Result<string, string>)

  /** An address and the host name the portal claims for it; either may be absent. */
  datatype HostPair = HostPair(address: Option<string>, host: Option<string>)

  /** The pairs examined, IPv4 first and IPv6 second. */
  function HostPairs(doc: Document): (pairs: seq<HostPair>)
    ensures |pairs| == 2
  {
    [ HostPair(ChildText(doc, "ip-address"), ChildText(doc, "host")),
      HostPair(ChildText(doc, "ipv6-address"), ChildText(doc, "ipv6-host")) ]
  }

  /**
   * The address a pair submits to the reverse lookup: only when both parts
   * are present and non-empty and the address parses.
   */
  function ProbeAddress(pair: HostPair, resolver: Resolver): (ip: Option<IpAddr>)
    ensures ip.Some? <==> && pair.address.Some? && pair.host.Some?
                          && pair.address.value != "" && pair.host.value != ""
                          && resolver.parseIp(pair.address.value).Some?
    ensures ip.Some? ==> ip == resolver.parseIp(pair.address.value)
  {
    if pair.address.Some? && pair.host.Some? && pair.address.value != "" && pair.host.value != ""
    then resolver.parseIp(pair.address.value)
    else None
  }

  /** The reverse lookup of the pair's address succeeds and gives exactly its host. */
  predicate Confirms(pair: HostPair, resolver: Resolver) {
    && pair.host.Some?
    && ProbeAddress(pair, resolver).Some?
    && resolver.lookupAddr(ProbeAddress(pair, resolver).value) == Ok(pair.host.value)
  }

  /**
   * The portal's gateways count as internal exactly when the detection
   * marker is present and some pair is confirmed.
   */
  ghost predicate InternalNetwork(doc: Document, resolver: Resolver) {
    && ChildText(doc, INTERNAL_HOST_DETECTION).Some?
    && exists k :: 0 <= k < |HostPairs(doc)| && Confirms(HostPairs(doc)[k], resolver)
  }

  /**
   * The lookups made, as the detection makes them: `probed` lists in
   * increasing order the pairs whose address was looked up, and a pair is
   * looked up exactly when the marker is present, the pair has a lookup
   * address and no earlier pair was confirmed.
   */
  ghost predicate ProbedInOrder(doc: Document, resolver: Resolver, probed: seq<nat>) {
    var pairs := HostPairs(doc);
    && (forall t :: 0 <= t < |probed| ==> probed[t] < |pairs| && ProbeAddress(pairs[probed[t]], resolver).Some?)
    && (forall s, t :: 0 <= s < t < |probed| ==> probed[s] < probed[t])
    && (forall k :: 0 <= k < |pairs| ==>
          (k in probed <==>
             && ChildText(doc, INTERNAL_HOST_DETECTION).Some?
             && ProbeAddress(pairs[k], resolver).Some?
             && forall k' :: 0 <= k' < k ==> !Confirms(pairs[k'], resolver)))
  }

  /** The loop state after the first `k` pairs: which of them were looked up, in order. */
  ghost predicate ProbedPrefix(pairs: seq<HostPair>, resolver: Resolver, probed: seq<nat>, k: nat) {
    && k <= |pairs|
    && (forall t :: 0 <= t < |probed| ==> probed[t] < k && ProbeAddress(pairs[probed[t]], resolver).Some?)
    && (forall s, t :: 0 <= s < t < |probed| ==> probed[s] < probed[t])
    && (forall k' :: 0 <= k' < k ==> (k' in probed <==> ProbeAddress(pairs[k'], resolver).Some?))
  }

  /** No pair before `k` is confirmed. */
  ghost predicate NoneConfirmed(pairs: seq<HostPair>, resolver: Resolver, k: nat) {
    k <= |pairs| && forall k' :: 0 <= k' < k ==> !Confirms(pairs[k'], resolver)
  }

  /** A pair with a lookup address is appended to the log, any other pair is skipped. */
  lemma ProbedStep(pairs: seq<HostPair>, resolver: Resolver, probed: seq<nat>, k: nat)
    requires k < |pairs| && ProbedPrefix(pairs, resolver, probed, k)
    ensures ProbeAddress(pairs[k], resolver).Some? ==> ProbedPrefix(pairs, resolver, probed + [k], k + 1)
    ensures ProbeAddress(pairs[k], resolver).None? ==> ProbedPrefix(pairs, resolver, probed, k + 1)
  {
    if ProbeAddress(pairs[k], resolver).Some? {
      var p := probed + [k];
      forall k' | 0 <= k' < k + 1
        ensures k' in p <==> ProbeAddress(pairs[k'], resolver).Some?
      {
        assert k' in p <==> k' in probed || k' == k;
      }
    }
  }

  /** Stopping at the first confirmed pair leaves the log the detection promises. */
  lemma StoppedAtConfirmed(doc: Document, resolver: Resolver, probed: seq<nat>, b: nat)
    requires ChildText(doc, INTERNAL_HOST_DETECTION).Some?
    requires b < |HostPairs(doc)| && Confirms(HostPairs(doc)[b], resolver)
    requires NoneConfirmed(HostPairs(doc), resolver, b)
    requires ProbedPrefix(HostPairs(doc), resolver, probed, b + 1)
    ensures InternalNetwork(doc, resolver) && ProbedInOrder(doc, resolver, probed)
  {
    var pairs := HostPairs(doc);
    forall k | 0 <= k < |pairs|
      ensures k in probed <==> ProbeAddress(pairs[k], resolver).Some? && forall k' :: 0 <= k' < k ==> !Confirms(pairs[k'], resolver)
    {
      if k > b {
        assert !(forall k' :: 0 <= k' < k ==> !Confirms(pairs[k'], resolver));
        assert k !in probed;
      }
    }
  }

  /** Running through every pair unconfirmed leaves the log the detection promises. */
  lemma RanThrough(doc: Document, resolver: Resolver, probed: seq<nat>)
    requires ChildText(doc, INTERNAL_HOST_DETECTION).Some?
    requires NoneConfirmed(HostPairs(doc), resolver, |HostPairs(doc)|)
    requires ProbedPrefix(HostPairs(doc), resolver, probed, |HostPairs(doc)|)
    ensures !InternalNetwork(doc, resolver) && ProbedInOrder(doc, resolver, probed)
  {
  }

  /**
   * Computes `external_gateway`, which stays `true` unless a pair is
   * confirmed; `probed` records the lookups made. A bad address, a failed
   * lookup or a different name only moves on to the next pair.
   */
  method DetectExternalGateway(doc: Document, resolver: Resolver) returns (external: bool, ghost probed: seq<nat>)
    ensures external <==> !InternalNetwork(doc, resolver)
    ensures ProbedInOrder(doc, resolver, probed)
  {
    external := true;
    probed := [];
    if ChildText(doc, INTERNAL_HOST_DETECTION).Some? {
      var ipInfo := HostPairs(doc);
      var k: nat := 0;
      while k < |ipInfo|
        invariant external
        invariant NoneConfirmed(ipInfo, resolver, k)
        invariant ProbedPrefix(ipInfo, resolver, probed, k)
      {
        var pair := ipInfo[k];
        ProbedStep(ipInfo, resolver, probed, k);
        if pair.address.Some? && pair.host.Some? {
          if pair.address.value != "" && pair.host.value != "" {
            match resolver.parseIp(pair.address.value) {
              case Some(ip) =>
                probed := probed + [k];
                match resolver.lookupAddr(ip) {
                  case Ok(hostLookup) =>
                    if hostLookup == pair.host.value {
                      StoppedAtConfirmed(doc, resolver, probed, k);
                      external := false;
                      break;
                    }
                  case Err(_) =>
                }
              case None =>
            }
          }
        }
        k := k + 1;
      }
      if external {
        RanThrough(doc, resolver, probed);
      }
    }
  }
}
