# GlobalProtect portal configuration: gateway selection and config retrieval

This project models the portal-configuration core of the `gpapi` crate, from
`crates/gpapi/src/portal/config.rs`, in Dafny:

- `PortalConfig` is a class whose only mutable field is its gateway list. It has three
  members:
  - `FindPreferredGateway` is a nested running-best scan with a `u32::MAX` threshold,
    with the first minimal baseline priority as its fallback.
  - `SortGateways` does one `swap(0, i)`.
  - `FindGateway` is a first-match search on name or address.
- `retrieve_config` is modelled in four parts:
  - the form body posted to the portal (`BuildFormBody`);
  - the mapping of the portal's answer to errors (`AnswerError`, `AnswerBody`);
  - the internal-host detection loop (`DetectExternalGateway`);
  - the assembly of the `PortalConfig` (`RetrieveConfig`).

The network exchange, the XML parser, the IP-literal parser, the reverse DNS lookup and
`parse_gateways` are function-typed parameters (`Collaborators`, `Resolver`).

Modules:
- `Wrappers` defines `Option` and `Result`.
- `Gateways` defines `Gateway`, `PriorityRule` and the `u32` range.
- `Selection` holds the reference definitions of the selector and the sort. The selector is the
  first minimum over the qualifying rules in gateway-then-rule order; the sort is the single swap.
  This module also holds their lemmas.
- `Portal` contains the `PortalConfig` class and the invariants of the selector loop.
- `HostDetection` is the detection loop.
- `Retrieval` covers the request, the answer and the assembly.
- `Scenarios` holds concrete instances.

A rule qualifies when its name is the region or `"Any"` and its priority is below
`u32::MAX`. The threshold starts at `u32::MAX` and the test is strict, so a rule of
priority `u32::MAX` can never win. `Selection.Qualifies` makes this explicit.

Some non-2xx answers are not mapped to `ConfigError`. A status error other than 404
becomes a plain error whose message is `"Portal config error: "` followed by the reason,
because config.rs:115-118 uses `bail!` with a string there. The model follows the code:
`PortalError.Generic`.

## Model

| member | source | states |
|---|---|---|
| Portal.PortalConfig.FindPreferredGateway | crates/gpapi/src/portal/config.rs:69-84 | The nested scan over gateways and rules returns exactly the gateway of the reference choice `PreferredIndex`. That choice is the owner of the first qualifying rule of minimal priority, or, with no qualifying rule, the first gateway of minimal baseline priority. |
| Selection.PreferredIndex | crates/gpapi/src/portal/config.rs:69-84 | For a non-empty list, the chosen position is inside the list, so the result is always one of the gateways. |
| Selection.PreferredByRegionRule | crates/gpapi/src/portal/config.rs:70-80 | When some rule qualifies, the chosen gateway owns a rule that qualifies, has minimal priority among all qualifying rules, and is strictly lower than every qualifying rule scanned before it. A later equal-priority rule never displaces it. |
| Selection.RegionWinnerUnique | crates/gpapi/src/portal/config.rs:73-79 | The winning rule is unique as a (gateway, rule) position. |
| Selection.PreferredByBaseline | crates/gpapi/src/portal/config.rs:82-83 | When no rule qualifies, the chosen gateway has minimal baseline priority, and every earlier gateway has a strictly higher one (`min_by_key` keeps the first). |
| Selection.LowestRuleOwnerWins | crates/gpapi/src/portal/config.rs:73-79 | A gateway is chosen wherever it stands in the list, if it owns a qualifying rule whose priority is below that of every qualifying rule of every other gateway. |
| Selection.CandidatesSound | crates/gpapi/src/portal/config.rs:73-79 | Every candidate of the first `n` gateways is a qualifying rule of one of them, carrying that rule's priority. Candidates are listed strictly in gateway-then-rule order. |
| Selection.CandidatesComplete | crates/gpapi/src/portal/config.rs:73-79 | Every qualifying rule of the first `n` gateways appears among the candidates. |
| Selection.CandidatesNonEmptyIff | crates/gpapi/src/portal/config.rs:75 | There are candidates exactly when some rule qualifies. |
| Selection.ArgMinFirstIsFirstMinimum | crates/gpapi/src/portal/config.rs:75-83 | The selected key is minimal, and every key before it is strictly larger. This is the strict `<` of the scan and the first-element rule of `min_by_key`. |
| Selection.ArgMinFirstUnique | crates/gpapi/src/portal/config.rs:75-83 | Any position that is a minimum with strictly larger keys before it is the selected one. |
| Selection.ArgMinFirst | crates/gpapi/src/portal/config.rs:83 | The index `min_by_key` picks in the fallback, computed by a scan that replaces its best only on a strictly smaller key; it lies inside the list. Its minimality and first-ness are `ArgMinFirstIsFirstMinimum`. |
| Portal.PortalConfig.SortGateways | crates/gpapi/src/portal/config.rs:45-55 | The new list is the old list with position 0 exchanged with the first position named like the preferred gateway. The list stays non-empty, and no other field changes. |
| Selection.SwapFrontExchanges | crates/gpapi/src/portal/config.rs:54 | After the swap, positions 0 and `i` are exchanged and every other position keeps its gateway. The result is a permutation of the input, and the list is unchanged when `i == 0`. |
| Selection.SwapFront | crates/gpapi/src/portal/config.rs:54 | `Vec::swap(0, i)` on the list; the result has the same length, and `SwapFrontExchanges` states the exchange. |
| Selection.SortedForRegion | crates/gpapi/src/portal/config.rs:45-55 | The list `sort_gateways` leaves: the swap of position 0 with `PreferredPosition`; it has the same length as the input. |
| Selection.PreferredPosition | crates/gpapi/src/portal/config.rs:47-51 | The swap index is the first position whose name equals the preferred gateway's name. It never lies after the preferred gateway's own position. |
| Selection.SortedFrontIsPreferred | crates/gpapi/src/portal/config.rs:45-55 | After the sort, the front gateway has the preferred gateway's name. It is the preferred gateway itself when no earlier gateway shares that name. |
| Selection.FirstIndex | crates/gpapi/src/portal/config.rs:58-63 | The first position satisfying a predicate, with nothing matching before it. The result is `None` exactly when no position matches. |
| Portal.PortalConfig.FindGateway | crates/gpapi/src/portal/config.rs:58-63 | The result is `None` iff no gateway's name or address equals the key. Otherwise it is the gateway at the first position that matches on either field. The function only reads the list. |
| Portal.MatchesKey | crates/gpapi/src/portal/config.rs:62 | The `find` closure, by definition: the gateway's name or its address equals the key exactly. |
| Portal.PortalConfig.constructor | crates/gpapi/src/portal/config.rs:173-179 | A configuration is built with the given fields and a non-empty gateway list. |
| HostDetection.HostPairs | crates/gpapi/src/portal/config.rs:133-136 | Exactly two pairs are examined; by definition the first is `ip-address`/`host` and the second `ipv6-address`/`ipv6-host`. |
| HostDetection.DetectExternalGateway | crates/gpapi/src/portal/config.rs:129-157 | `external_gateway` is `false` iff the marker is present and some pair is confirmed. A pair is confirmed when both parts are present and non-empty, the address parses, and the reverse lookup gives exactly the host. The lookups made are, in increasing order, the pairs with a lookup address up to the first confirmed pair, and none after it. |
| HostDetection.ProbedStep | crates/gpapi/src/portal/config.rs:141-153 | A pair is looked up exactly when both parts are present and non-empty and the address parses. Any other pair is skipped. |
| HostDetection.ProbeAddress | crates/gpapi/src/portal/config.rs:141-143 | A pair yields a lookup address exactly when its address and host are both present and non-empty and the address parses; the address is then the parsed one. |
| HostDetection.StoppedAtConfirmed | crates/gpapi/src/portal/config.rs:144-148 | Stopping at the first confirmed pair means the gateways are internal. The lookups made stop at that pair. |
| HostDetection.RanThrough | crates/gpapi/src/portal/config.rs:140-156 | Running through every pair without a confirmation means the gateways are external. |
| Retrieval.BuildFormBody | crates/gpapi/src/portal/config.rs:94-99 | The form holds the keys of the credential parameters, the extra parameters, `server` and `host`. Extra parameters override credential ones, and `server` and `host` both map to the bare server whatever came before. |
| Retrieval.FormBodyUnique | crates/gpapi/src/portal/config.rs:94-99 | That description determines the form completely. |
| Retrieval.AnswerError | crates/gpapi/src/portal/config.rs:110-121 | 404 gives `ConfigError("Config endpoint not found")`. A plain error with the reason arises exactly for the other status errors. Any other failure gives `ConfigError` carrying the reason, and no answer maps to a network error. |
| Retrieval.AnswerBody | crates/gpapi/src/portal/config.rs:110-125 | A body goes on to parsing exactly when the answer succeeded with a non-empty body. An empty body gives `ConfigError("Empty portal config response")` before any parse, and a failed answer gives its mapped error. |
| Retrieval.RetrieveConfig | crates/gpapi/src/portal/config.rs:87-179 | The URL is the portal followed by `/global-protect/getconfig.esp`, and the form is as in `BuildFormBody`. A transport failure gives `NetworkError`, a bad answer its mapped error, and an XML failure a `ConfigError`. Otherwise the result is a fresh configuration (`IsAssembled`). Its gateway list is the parsed one, computed with the detection's verdict, when that is non-empty; otherwise it is exactly one gateway whose name and address are the server. The portal is the server, the cookies default to `""`, the digest is `None` exactly when its element is absent, and the credential is unchanged. |
| Gateways.NewGateway | crates/gpapi/src/portal/config.rs:170 | The fallback gateway is named and addressed by the server. |
| Scenarios.AnyRuleBeatsRegionalRule | crates/gpapi/src/portal/config.rs:73-80 | An `"Any"` rule of priority 3 beats a regional rule of priority 5 in either list order. |
| Scenarios.MaxPriorityRuleIgnored | crates/gpapi/src/portal/config.rs:71-83 | A rule of priority `u32::MAX` is ignored. The first gateway of minimal baseline priority is chosen, so of two gateways with equal priority the first wins. |
| Scenarios.MatchingLookupIsInternal | crates/gpapi/src/portal/config.rs:140-148 | When `10.0.0.1` reverses to `vpn.example`, the claimed host, the gateways are internal. |
| Scenarios.MismatchOrFailureIsExternal | crates/gpapi/src/portal/config.rs:143-152 | A lookup that gives another name or fails leaves the gateways external. |

## Left out

- `normalize_server` and `remove_url_scheme` (config.rs:88-89) live in a utility module that is not part of this model. `RetrieveConfig` takes the normalized portal and the bare server as inputs, so their failure paths are not modelled.
- `Client::try_from` (config.rs:92) builds the client from the request parameters and can fail before any form is built; `?` returns that error as it is, not as a `NetworkError`. This failure path is not modelled.
- The HTTP `post`/`form`/`send` and TLS (config.rs:103-108) are network I/O. Only the outcome, a transport failure (which becomes `NetworkError`) or an answer, is an input (`Collaborators.exchange`). The user agent is carried but not used.
- `parse_gp_response` (config.rs:110) reads the answer over the network. Its result is part of that same outcome: a body, or a status with an is-status-error flag and a reason.
- XML parsing and `xml::get_child_text` are not part of this model. The document is a map from element name to text, and a failed parse is an error input.
- `parse_gateways` belongs to the gateway module, which is not part of this model. It is a function of the document and the detection verdict.
- `str::parse::<IpAddr>` and `lookup_addr` (config.rs:143-144) are foreign and network calls. They are the two functions of `Resolver`.
- Gateways.NewGateway: `Gateway::new` belongs to the gateway module, which is not part of this model. Its baseline priority (0) and empty rule list are placeholders, and no contract speaks of them.
- `gp_params.to_params()` (config.rs:95) is the field `GpParams.extraParams`: the extra form fields are an input, and how `GpParams` derives them is not modelled.
- The internals of `Credential` and `AuthCookieCredential` are left out. `to_params()` is the credential's parameter map, and `username()` is its username.
- Logging, the serialization derives and the getters (config.rs:28-42) carry no behaviour to prove.
- The `&Gateway` references are modelled as gateway values. `SortGateways` finds the swap index by name, as the source does, so identity plays no role.
