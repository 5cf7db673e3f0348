/**
 * `WebBrowserSSOService.wbsso`: the direct SAML2 entry point. It checks the
 * Guard, registers the relay state, checks the IdP and its HTTP-POST
 * endpoint, and posts a signed AuthnRequest. Signing is foreign code and
 * comes in as a function that may fail.
 */
module WebSso {
  import opened Wrappers
  import Text
  import opened Saml

  const NoGuardMetadata := "engine.error.no.guard.metadata"
  const MissingEntityId := "engine.error.missing.entityid.param"
  const NoIdpMetadata := "engine.error.no.idp.metadata"
  const ProfileNotSupported := "engine.error.profile.not.supported"
  const CouldNotSign := "engine.error.could.not.sign.message"

  /** The request parameters: `entityID`, `guardid` and `sessionid`; `None` for one the request lacks. */
  datatype Request = Request(entityId: Option<string>, guardId: string, sessionId: Option<string>)

  /**
   * The view the handler returns. `view` is `None` when no view name is set,
   * `error` the message in the error display variable; on success the
   * request attributes `SAMLRequest` and `RelayState` and the model's
   * `wbsso_endpoint` are set. `Crash` is an exception the handler does not catch.
   */
  datatype Response = Response(view: Option<string>, error: Option<string>, samlRequest: Option<string>,
                               relayState: Option<string>, endpoint: Option<string>)
                    | Crash(what: string)

  datatype Config = Config(httpPostView: string, errorView: string)

  /** The handler's response and the servlet context afterwards. */
  datatype Result = Result(response: Response, context: Context)

  function Failed(cfg: Config, message: string): Response {
    Response(Some(cfg.errorView), Some(message), None, None, None)
  }

  /** The binding is HTTP-POST, ignoring case. */
  predicate IsPost(b: string) {
    Text.EqualsIgnoreCase(b, BindingPost)
  }

  /** The location of the last HTTP-POST endpoint among the first `n`; Redirect is never used. */
  function LastPostBelow(ssos: seq<Endpoint>, n: nat): (r: Option<string>)
    requires n <= |ssos|
    ensures r.None? <==> forall k :: 0 <= k < n ==> !IsPost(ssos[k].binding)
    ensures r.Some? ==> exists k :: 0 <= k < n && IsPost(ssos[k].binding) && ssos[k].location == r.value
                           && forall j :: k < j < n ==> !IsPost(ssos[j].binding)
  {
    if n == 0 then None
    else if IsPost(ssos[n - 1].binding) then Some(ssos[n - 1].location)
    else LastPostBelow(ssos, n - 1)
  }

  /** The location of the last HTTP-POST endpoint. */
  function LastPost(ssos: seq<Endpoint>): Option<string> {
    LastPostBelow(ssos, |ssos|)
  }

  /** The Java loop: every POST endpoint overwrites the location found so far. */
  method FindPostEndpoint(ssos: seq<Endpoint>) returns (wbssoUrl: Option<string>)
    ensures wbssoUrl == LastPost(ssos)
  {
    wbssoUrl := None;
    var i := 0;
    while i < |ssos|
      invariant 0 <= i <= |ssos|
      invariant wbssoUrl == LastPostBelow(ssos, i)
    {
      if IsPost(ssos[i].binding) {
        wbssoUrl := Some(ssos[i].location);
      }
      i := i + 1;
    }
  }

  /** The Guard is known and the IdP's metadata is found, but it has no SSO descriptor. */
  predicate SsoFails(req: Request, ctx: Context, farm: Farm) {
    req.guardId in ctx && req.sessionId.Some? && req.entityId.Some? && IdpMetadata(farm, req.entityId.value).Ok?
    && SsoEndpoints(IdpMetadata(farm, req.entityId.value).value).Err?
  }

  /**
   * Once the Guard, the entityID, the IdP's metadata and its SSO descriptor
   * are all found: the last HTTP-POST endpoint, if any. `None` when the
   * request stops earlier.
   */
  function PostEndpoint(req: Request, ctx: Context, farm: Farm): Option<Option<string>> {
    if req.guardId in ctx && req.sessionId.Some? && req.entityId.Some? && IdpMetadata(farm, req.entityId.value).Ok?
       && SsoEndpoints(IdpMetadata(farm, req.entityId.value).value).Ok?
    then Some(LastPost(SsoEndpoints(IdpMetadata(farm, req.entityId.value).value).value))
    else None
  }

  /**
   * `wbsso`. `sign(guardId)` is the base64 text of the signed AuthnRequest
   * issued by the Guard, or `None` when signing or re-parsing fails. A known
   * Guard without a `sessionid` ends in a `NullPointerException` before the
   * context is changed.
   */
  function Wbsso(cfg: Config, req: Request, ctx: Context, farm: Farm, sign: string -> Option<string>)
    : (r: Result)
    ensures req.guardId !in ctx ==>
              r.context == ctx && r.response == Response(None, Some(NoGuardMetadata), None, None, None)
    ensures req.guardId in ctx && req.sessionId.None? ==> r == Result(Crash("NullPointerException"), ctx)
    ensures req.guardId in ctx && req.sessionId.Some? ==>
              r.context == ctx[EngineSession(req.sessionId.value) := ctx[req.guardId]]
    ensures req.guardId in ctx && req.sessionId.Some? && req.entityId.None? ==>
              r.response == Failed(cfg, MissingEntityId)
    ensures req.guardId in ctx && req.sessionId.Some? && req.entityId.Some? && IdpMetadata(farm, req.entityId.value).Err? ==>
              r.response == Failed(cfg, NoIdpMetadata)
    ensures r.response.Response? && r.response.error.None? ==>
      r.response.view == Some(cfg.httpPostView)
      && req.guardId in ctx && req.sessionId.Some? && req.entityId.Some? && IdpMetadata(farm, req.entityId.value).Ok?
      && SsoEndpoints(IdpMetadata(farm, req.entityId.value).value).Ok?
      && r.response.endpoint == LastPost(SsoEndpoints(IdpMetadata(farm, req.entityId.value).value).value)
      && r.response.endpoint.Some?
      && r.response.samlRequest == sign(req.guardId) && r.response.samlRequest.Some?
      && r.response.relayState == Some(EngineSession(req.sessionId.value))
    ensures SsoFails(req, ctx, farm) ==>
              r.response == Crash(SsoEndpoints(IdpMetadata(farm, req.entityId.value).value).error.what)
    ensures PostEndpoint(req, ctx, farm).Some? && PostEndpoint(req, ctx, farm).value.None? ==>
              r.response == Failed(cfg, ProfileNotSupported)
    ensures PostEndpoint(req, ctx, farm).Some? && PostEndpoint(req, ctx, farm).value.Some?
            && sign(req.guardId).None?
            ==> r.response == Failed(cfg, CouldNotSign)
    ensures PostEndpoint(req, ctx, farm).Some? && PostEndpoint(req, ctx, farm).value.Some?
            && sign(req.guardId).Some?
            ==> r.response.Response? && r.response.error.None?
  {
    if req.guardId !in ctx then
      Result(Response(None, Some(NoGuardMetadata), None, None, None), ctx)
    else if req.sessionId.None? then Result(Crash("NullPointerException"), ctx)
    else
      var relayState := EngineSession(req.sessionId.value);
      var ctx' := ctx[relayState := ctx[req.guardId]];
      var response :=
        if req.entityId.None? then Failed(cfg, MissingEntityId)
        else match IdpMetadata(farm, req.entityId.value)
          case Err(_) => Failed(cfg, NoIdpMetadata)
          case Ok(md) =>
            match SsoEndpoints(md)
            case Err(e) => Crash(e.what)
            case Ok(ssos) =>
              match LastPost(ssos)
              case None => Failed(cfg, ProfileNotSupported)
              case Some(url) =>
                match sign(req.guardId)
                case None => Failed(cfg, CouldNotSign)
                case Some(signed) => Response(Some(cfg.httpPostView), None, Some(signed), Some(relayState), Some(url));
      Result(response, ctx')
  }

  /** The relay state is registered even when the request then fails for want of an entityID. */
  lemma RegisteredBeforeEntityCheck(cfg: Config, req: Request, ctx: Context, farm: Farm, sign: string -> Option<string>)
    requires req.guardId in ctx && req.sessionId.Some? && req.entityId.None?
    ensures var r := Wbsso(cfg, req, ctx, farm, sign);
      EngineSession(req.sessionId.value) in r.context && r.response.error == Some(MissingEntityId)
  {
  }

  /** Of two POST endpoints the later one is used. */
  lemma LastPostWins(first: string, second: string)
    ensures LastPost([Endpoint(BindingPost, first), Endpoint(BindingPost, second)]) == Some(second)
  {
  }
}
