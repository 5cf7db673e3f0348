/**
 * `SAML2ProfileService.doProfile`: picks the IdP's browser SSO endpoint,
 * builds the AuthnRequest and prepares it for the HTTP-Redirect or HTTP-POST
 * binding. The XML document, deflate, base64 and URL encoding are foreign
 * code: their results are written as symbolic `Wire` terms.
 */
module Saml2Profile {
  import opened Wrappers
  import Text
  import opened Saml

  /** The fields of the AuthnRequest the engine sets (the random ID and the clock are left out). */
  datatype AuthnRequest = AuthnRequest(version: string, issuer: string, acsUrl: string, protocolBinding: string)

  /** A value as it is put in the view's model, built by the foreign encoders. */
  datatype Wire = Plain(text: string) | Document(request: AuthnRequest) | Deflated(inner: Wire)
                | Base64(inner: Wire) | NoLineBreaks(inner: Wire) | UrlEncoded(inner: Wire)

  /** The service's configuration: the two views and the engine's ACS URL. */
  datatype Config = Config(httpPostView: string, httpRedirectView: string, acsUrl: string)

  /** The rendered view: its name and the three model entries. */
  datatype Response = Response(view: string, samlRequest: Wire, relayState: Wire, endpoint: string)

  /** A binding `doProfile` accepts, compared ignoring case. */
  predicate BrowserBinding(b: string) {
    Text.EqualsIgnoreCase(b, BindingPost) || Text.EqualsIgnoreCase(b, BindingRedirect)
  }

  /** The canonical form of an accepted binding: POST wins when both match. */
  function Canonical(b: string): string {
    if Text.EqualsIgnoreCase(b, BindingPost) then BindingPost else BindingRedirect
  }

  /** The first endpoint with an accepted binding: its location and canonical binding. */
  function ChooseEndpoint(ssos: seq<Endpoint>): (r: Option<(string, string)>)
    ensures r.None? <==> forall k :: 0 <= k < |ssos| ==> !BrowserBinding(ssos[k].binding)
    ensures r.Some? ==> exists k :: 0 <= k < |ssos| && BrowserBinding(ssos[k].binding)
                           && r.value == (ssos[k].location, Canonical(ssos[k].binding))
                           && forall j :: 0 <= j < k ==> !BrowserBinding(ssos[j].binding)
    ensures r.Some? ==> r.value.1 == BindingPost || r.value.1 == BindingRedirect
  {
    if |ssos| == 0 then None
    else if BrowserBinding(ssos[0].binding) then Some((ssos[0].location, Canonical(ssos[0].binding)))
    else
      assert forall k :: 1 <= k < |ssos| ==> ssos[k] == ssos[1..][k - 1];
      ChooseEndpoint(ssos[1..])
  }

  /** The AuthnRequest: version 2.0, issued by the Guard, answered by HTTP-POST at the engine's ACS. */
  function NewAuthnRequest(guardId: string, cfg: Config): (r: AuthnRequest)
    ensures r.version == "2.0" && r.issuer == guardId && r.acsUrl == cfg.acsUrl
    ensures r.protocolBinding == BindingPost
  {
    AuthnRequest("2.0", guardId, cfg.acsUrl, BindingPost)
  }

  /** The message of the exception raised when no endpoint is accepted. */
  function NoWbsso(id: string): string { "IdP does not support WBSSO " + id }

  /** `doProfile` for the IdP `entityId` and the Guard session `guardSession`. */
  function DoProfile(cfg: Config, farm: Farm, guardId: string, guardSession: string, entityId: string)
    : (r: Result<Response, Failure>)
    ensures IdpMetadata(farm, entityId).Err? ==> r == Err(IdpMetadata(farm, entityId).error)
    ensures r.Ok? ==>
      IdpMetadata(farm, entityId).Ok? && SsoEndpoints(IdpMetadata(farm, entityId).value).Ok?
      && var ep := ChooseEndpoint(SsoEndpoints(IdpMetadata(farm, entityId).value).value);
      ep.Some? && r.value.endpoint == ep.value.0
      && (ep.value.1 == BindingRedirect ==>
            r.value.view == cfg.httpRedirectView
            && r.value.samlRequest == UrlEncoded(NoLineBreaks(Base64(Deflated(Document(NewAuthnRequest(guardId, cfg))))))
            && r.value.relayState == UrlEncoded(Plain(EngineSession(guardSession))))
      && (ep.value.1 == BindingPost ==>
            r.value.view == cfg.httpPostView
            && r.value.samlRequest == Base64(Document(NewAuthnRequest(guardId, cfg)))
            && r.value.relayState == Plain(EngineSession(guardSession)))
    ensures IdpMetadata(farm, entityId).Ok? && SsoEndpoints(IdpMetadata(farm, entityId).value).Ok?
            && ChooseEndpoint(SsoEndpoints(IdpMetadata(farm, entityId).value).value).None?
            ==> r == Err(Guanxi(NoWbsso(entityId)))
    ensures IdpMetadata(farm, entityId).Ok? && SsoEndpoints(IdpMetadata(farm, entityId).value).Err?
            ==> r == Err(SsoEndpoints(IdpMetadata(farm, entityId).value).error)
    ensures IdpMetadata(farm, entityId).Ok? && SsoEndpoints(IdpMetadata(farm, entityId).value).Ok?
            && ChooseEndpoint(SsoEndpoints(IdpMetadata(farm, entityId).value).value).Some?
            ==> r.Ok?
  {
    var relayState := EngineSession(guardSession);
    match IdpMetadata(farm, entityId)
    case Err(e) => Err(e)
    case Ok(md) =>
      match SsoEndpoints(md)
      case Err(e) => Err(e)
      case Ok(ssos) =>
        match ChooseEndpoint(ssos)
        case None => Err(Guanxi(NoWbsso(entityId)))
        case Some(ep) =>
          var doc := Document(NewAuthnRequest(guardId, cfg));
          if ep.1 == BindingRedirect then
            Ok(Response(cfg.httpRedirectView, UrlEncoded(NoLineBreaks(Base64(Deflated(doc)))),
                        UrlEncoded(Plain(relayState)), ep.0))
          else
            Ok(Response(cfg.httpPostView, Base64(doc), Plain(relayState), ep.0))
  }

  /** Of two accepted endpoints, the earlier one is used. */
  lemma FirstEndpointWins(a: Endpoint, b: Endpoint, rest: seq<Endpoint>)
    requires BrowserBinding(a.binding)
    ensures ChooseEndpoint([a, b] + rest) == Some((a.location, Canonical(a.binding)))
  {
  }
}
