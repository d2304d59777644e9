/**
 * `retrieve_config`: the request the client posts to the portal, the
 * classification of the answer into errors, and the assembly of the
 * `PortalConfig`. Everything that touches the network, XML or DNS is a
 * collaborator passed in as a function.
 */
module Retrieval {
  import opened Wrappers
  import opened Gateways
  import opened HostDetection
  import opened Portal

  /** The portal's configuration endpoint, appended to the normalized portal. */
  const CONFIG_PATH: string := "/global-protect/getconfig.esp"

  const NOT_FOUND_MESSAGE: string := "Config endpoint not found"
  const EMPTY_RESPONSE_MESSAGE: string := "Empty portal config response"
  const GENERIC_ERROR_PREFIX: string := "Portal config error: "

  /** The request parameters of the client: its user agent and extra form fields. */
  datatype GpParams = GpParams(userAgent: string, extraParams: map<string, string>)

  /**
   * The errors `retrieve_config` reports: `PortalError::NetworkError`,
   * `PortalError::ConfigError`, and the plain message of `bail!`.
   */
  datatype PortalError =
    | NetworkError(reason: string)
    | ConfigError(reason: string)
    | Generic(message: string)

  /** What `parse_gp_response` reports for a non-success answer. */
  datatype HttpError = HttpError(status: int, isStatusError: bool, reason: string)

  /** The outcome of the POST: the transport failed, or an answer was read. */
  datatype Exchange =
    | TransportFailure(reason: string)
    | Answered(outcome: Result<string, HttpError>)

  /** The URL and the form body posted to the portal. */
  datatype Request = Request(url: string, form: map<string, string>)

  /**
   * The collaborators of the retrieval: the HTTP exchange, the XML parser,
   * the IP parser and reverse lookup, and `gateway::parse_gateways`.
   */
  datatype Collaborators = Collaborators(
    exchange: Request -> Exchange,
    parseXml: string -> Result<Document, string>,
    resolver: Resolver,
    parseGateways: (Document, bool) -> Option<seq<Gateway>>)

  // ---------------------------------------------------------------------
  // The form body
  // ---------------------------------------------------------------------

  /**
   * The posted form: the credential's parameters, overridden on shared keys
   * by the extra parameters, with "server" and "host" both set to the bare
   * server whatever came before.
   */
  ghost predicate IsFormBody(form: map<string, string>, credParams: map<string, string>,
                             extraParams: map<string, string>, server: string)
  {
    && form.Keys == credParams.Keys + extraParams.Keys + {"server", "host"}
    && form["server"] == server && form["host"] == server
    && (forall key :: key in extraParams && key != "server" && key != "host" ==> form[key] == extraParams[key])
    && (forall key :: key in credParams && key !in extraParams && key != "server" && key != "host"
          ==> form[key] == credParams[key])
  }

  /** The form body is determined by its three sources. */
  lemma FormBodyUnique(f1: map<string, string>, f2: map<string, string>, credParams: map<string, string>,
                       extraParams: map<string, string>, server: string)
    requires IsFormBody(f1, credParams, extraParams, server)
    requires IsFormBody(f2, credParams, extraParams, server)
    ensures f1 == f2
  {
    forall key | key in f1
      ensures key in f2 && f1[key] == f2[key]
    {
      if key == "server" || key == "host" {
      } else if key in extraParams {
      } else {
        assert key in credParams;
      }
    }
  }

  /** `cred.to_params()`, then `extend` with the extra parameters, then the two inserts. */
  method BuildFormBody(credParams: map<string, string>, extraParams: map<string, string>, server: string)
    returns (form: map<string, string>)
    ensures IsFormBody(form, credParams, extraParams, server)
  {
    form := credParams;
    form := form + extraParams;
    form := form["server" := server];
    form := form["host" := server];
  }

  // ---------------------------------------------------------------------
  // The answer
  // ---------------------------------------------------------------------

  /**
   * The error a non-success answer becomes: 404 the "not found" config
   * error, any other status error a generic error with the reason, any
   * other failure a config error with the reason.
   */
  function AnswerError(e: HttpError): (err: PortalError)
    ensures !err.NetworkError?
    ensures err.Generic? <==> e.status != 404 && e.isStatusError
    ensures err.Generic? ==> err.message == GENERIC_ERROR_PREFIX + e.reason
    ensures e.status == 404 ==> err == ConfigError(NOT_FOUND_MESSAGE)
    ensures err.ConfigError? && e.status != 404 ==> err.reason == e.reason
  {
    if e.status == 404 then ConfigError(NOT_FOUND_MESSAGE)
    else if e.isStatusError then Generic(GENERIC_ERROR_PREFIX + e.reason)
    else ConfigError(e.reason)
  }

  /**
   * The body to parse, or the error the answer maps to. An empty body is
   * refused before any parsing.
   */
  function AnswerBody(outcome: Result<string, HttpError>): (r: Result<string, PortalError>)
    ensures r.Ok? <==> outcome.Ok? && outcome.value != ""
    ensures r.Ok? ==> r.value == outcome.value
    ensures outcome.Ok? && outcome.value == "" ==> r == Err(ConfigError(EMPTY_RESPONSE_MESSAGE))
    ensures outcome.Err? ==> r == Err(AnswerError(outcome.error))
  {
    match outcome
    case Err(e) => Err(AnswerError(e))
    case Ok(body) => if body == "" then Err(ConfigError(EMPTY_RESPONSE_MESSAGE)) else Ok(body)
  }

  // ---------------------------------------------------------------------
  // The retrieval
  // ---------------------------------------------------------------------

  /**
   * Posts the request, classifies the answer, detects internal hosts and
   * assembles the configuration. `portal` is the normalized portal and
   * `server` the same without its scheme. The request posted is a ghost
   * result so that its contents can be stated.
   */
  method RetrieveConfig(portal: string, server: string, cred: Credential, gpParams: GpParams, env: Collaborators)
    returns (ghost request: Request, r: Result<PortalConfig, PortalError>)
    ensures request.url == portal + CONFIG_PATH
    ensures IsFormBody(request.form, cred.params, gpParams.extraParams, server)
    ensures env.exchange(request).TransportFailure? ==> r == Err(NetworkError(env.exchange(request).reason))
    ensures (env.exchange(request).Answered? && AnswerBody(env.exchange(request).outcome).Err?)
              ==> r == Err(AnswerBody(env.exchange(request).outcome).error)
    ensures (env.exchange(request).Answered? && AnswerBody(env.exchange(request).outcome).Ok?)
              ==> var body := AnswerBody(env.exchange(request).outcome).value;
                  && (env.parseXml(body).Err? ==> r == Err(ConfigError(env.parseXml(body).error)))
                  && (env.parseXml(body).Ok? ==> r.Ok? && fresh(r.value) && IsAssembled(r.value, env.parseXml(body).value, server, cred, env))
  {
    var form := BuildFormBody(cred.params, gpParams.extraParams, server);
    var posted := Request(portal + CONFIG_PATH, form);
    request := posted;
    var res := env.exchange(posted);
    if res.TransportFailure? {
      r := Err(NetworkError(res.reason));
      return;
    }
    var resXml := AnswerBody(res.outcome);
    if resXml.Err? {
      r := Err(resXml.error);
      return;
    }
    var parsed := env.parseXml(resXml.value);
    if parsed.Err? {
      r := Err(ConfigError(parsed.error));
      return;
    }
    var doc := parsed.value;
    var externalGateway, _ := DetectExternalGateway(doc, env.resolver);
    var gateways := env.parseGateways(doc, externalGateway).GetOr([]);
    var userAuthCookie := ChildText(doc, "portal-userauthcookie").GetOr("");
    var prelogonUserAuthCookie := ChildText(doc, "portal-prelogonuserauthcookie").GetOr("");
    var configDigest := ChildText(doc, "config-digest");
    if |gateways| == 0 {
      gateways := gateways + [NewGateway(server, server)];
    }
    var config := new PortalConfig(server, AuthCookieCredential(cred.username, userAuthCookie, prelogonUserAuthCookie),
                                   cred, gateways, configDigest);
    r := Ok(config);
  }

  /**
   * The configuration assembled from a parsed document: the portal is the
   * bare server; the gateways are the parsed ones, or the single fallback
   * gateway named and addressed by the server when none were parsed; both
   * cookies default to empty; the digest is kept only when present; the
   * credential is the one used.
   */
  ghost predicate IsAssembled(config: PortalConfig, doc: Document, server: string, cred: Credential, env: Collaborators)
    reads config
  {
    var parsed := env.parseGateways(doc, !InternalNetwork(doc, env.resolver));
    && config.Valid()
    && config.portal == server
    && config.configCred == cred
    && config.authCookie == AuthCookieCredential(cred.username,
                                                 ChildText(doc, "portal-userauthcookie").GetOr(""),
                                                 ChildText(doc, "portal-prelogonuserauthcookie").GetOr(""))
    && config.configDigest == ChildText(doc, "config-digest")
    && (if parsed.Some? && |parsed.value| > 0 then config.gateways == parsed.value
        else |config.gateways| == 1 && config.gateways[0].name == server && config.gateways[0].address == server)
  }
}
