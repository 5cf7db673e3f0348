/**
 * `GenericProfileService`: the engine's entry point for a Guard's request. It
 * settles which IdP entityID to use (request parameter, configured mapping,
 * discovery service), registers the Guard's metadata under the engine session
 * id, and hands the request to the Shibboleth, SAML2 or discovery profile.
 */
module GenericProfile {
  import opened Wrappers
  import Text
  import opened Saml

  /** The marker of the configured mapping's default entry. */
  const DefaultMarker := "__DEFAULT__"

  /** The message shown by the error view, for an unknown Guard and for a failed profile alike. */
  const NoGuardMetadata := "engine.error.no.guard.metadata"

  datatype Profile = Shibboleth | Saml2 | Discovery

  /**
   * The request parameters `gps` reads: `guardid`, `sessionid`, `entityID` and
   * `edsEntityID`; `None` for a parameter the request lacks.
   */
  datatype Request = Request(guardId: string, sessionId: Option<string>, entityId: Option<string>,
                             edsEntityId: Option<string>)

  /** The configured Guard-to-entityID mapping (absent when not configured) and the discovery switch. */
  datatype Config = Config(entityIds: Option<map<string, string>>, useDiscovery: bool)

  /** The configured mapping has neither an entry for the Guard nor a default entry. */
  predicate Unmapped(req: Request, cfg: Config) {
    cfg.entityIds.None? || (req.guardId !in cfg.entityIds.value && DefaultMarker !in cfg.entityIds.value)
  }

  /**
   * The IdP entityID `gps` settles on: the request's own, else the Guard's
   * mapping, else the default mapping, else (with discovery on) the
   * discovery service's answer.
   */
  function ResolveEntityId(req: Request, cfg: Config): (r: Option<string>)
    ensures req.entityId.Some? ==> r == req.entityId
    ensures req.entityId.None? && cfg.entityIds.Some? && req.guardId in cfg.entityIds.value ==>
              r == Some(cfg.entityIds.value[req.guardId])
    ensures (req.entityId.None? && cfg.entityIds.Some? && req.guardId !in cfg.entityIds.value
             && DefaultMarker in cfg.entityIds.value) ==> r == Some(cfg.entityIds.value[DefaultMarker])
    ensures r.None? <==> req.entityId.None? && Unmapped(req, cfg) && (!cfg.useDiscovery || req.edsEntityId.None?)
    ensures (r.Some? && req.entityId.None? && Unmapped(req, cfg)) ==> cfg.useDiscovery && r == req.edsEntityId
  {
    var mapped :=
      if req.entityId.Some? then req.entityId
      else match cfg.entityIds
        case None => None
        case Some(m) => if req.guardId in m then Some(m[req.guardId]) else Get(m, DefaultMarker);
    if mapped.None? && cfg.useDiscovery then req.edsEntityId else mapped
  }

  /** The IdP's first `IDPSSODescriptor` has an endpoint bound exactly to HTTP-POST or HTTP-Redirect. */
  predicate OffersSaml2(ssos: seq<Endpoint>) {
    exists k :: 0 <= k < |ssos| && (ssos[k].binding == BindingPost || ssos[k].binding == BindingRedirect)
  }

  function FirstSaml2(ssos: seq<Endpoint>): (r: bool)
    ensures r <==> OffersSaml2(ssos)
  {
    if |ssos| == 0 then false
    else if ssos[0].binding == BindingPost || ssos[0].binding == BindingRedirect then true
    else
      assert forall k :: 1 <= k < |ssos| ==> ssos[k] == ssos[1..][k - 1];
      FirstSaml2(ssos[1..])
  }

  /** `getProfileService`'s message when the IdP has no manager: it opens a quote it never closes. */
  function NoManagerQuoted(id: string): string { "Could not find manager for IdP '" + id }

  /**
   * The metadata lookup of `getProfileService`: as the profile services do
   * it, but with its own message for a missing manager.
   */
  function ProfileMetadata(farm: Farm, id: string): (r: Result<EntityDescriptor, Failure>)
    ensures id !in farm ==> r == Err(Guanxi(NoManagerQuoted(id)))
    ensures id in farm && id !in farm[id] ==> r == Err(Guanxi(NoMetadata(id)))
    ensures r.Err? <==> IdpMetadata(farm, id).Err?
    ensures r.Ok? ==> r == IdpMetadata(farm, id)
  {
    if id !in farm then Err(Guanxi(NoManagerQuoted(id))) else IdpMetadata(farm, id)
  }

  /**
   * `getProfileService`: without an entityID, the discovery profile when
   * discovery is on, else Shibboleth; with one, SAML2 when the IdP offers a
   * SAML2 browser binding, else Shibboleth.
   */
  function ChooseProfile(farm: Farm, id: Option<string>, cfg: Config, eds: Option<string>): (r: Result<Profile, Failure>)
    ensures id.None? && !cfg.useDiscovery ==> r == Ok(Shibboleth)
    ensures id.None? && cfg.useDiscovery && eds.None? ==> r == Ok(Discovery)
    ensures r == Ok(Saml2) ==> (id.Some? || eds.Some?)
    ensures id.Some? && ProfileMetadata(farm, id.value).Err? ==> r == Err(ProfileMetadata(farm, id.value).error)
    ensures id.Some? && ProfileMetadata(farm, id.value).Ok? && SsoEndpoints(ProfileMetadata(farm, id.value).value).Err? ==>
              r == Err(SsoEndpoints(ProfileMetadata(farm, id.value).value).error)
    ensures id.Some? && ProfileMetadata(farm, id.value).Ok? && SsoEndpoints(ProfileMetadata(farm, id.value).value).Ok? ==>
              r == Ok(if OffersSaml2(SsoEndpoints(ProfileMetadata(farm, id.value).value).value) then Saml2 else Shibboleth)
  {
    if id.None? && !cfg.useDiscovery then Ok(Shibboleth)
    else if id.None? && eds.None? then Ok(Discovery)
    else
      var idp := if id.Some? then id.value else eds.value;
      match ProfileMetadata(farm, idp)
      case Err(e) => Err(e)
      case Ok(md) =>
        match SsoEndpoints(md)
        case Err(e) => Err(e)
        case Ok(ssos) => Ok(if FirstSaml2(ssos) then Saml2 else Shibboleth)
  }

  /** How `gps` ends: the error view, an uncaught exception, or what the chosen profile renders. */
  datatype Outcome<R> = ErrorView(message: string) | Crash(what: string) | Rendered(response: R)

  /** The outcome and the servlet context afterwards. */
  datatype GpsResult<R> = GpsResult(outcome: Outcome<R>, context: Context)

  /**
   * `gps`. `doProfile` stands for the chosen profile's own `doProfile`; a
   * `GuanxiException` from it or from the profile choice shows the error view.
   * A known Guard without a `sessionid` ends in a `NullPointerException`
   * before the context is changed.
   */
  function Gps<R>(req: Request, cfg: Config, ctx: Context, farm: Farm,
                  doProfile: (Profile, Option<string>) -> Result<R, Failure>): (r: GpsResult<R>)
    ensures req.guardId !in ctx ==> r == GpsResult(ErrorView(NoGuardMetadata), ctx)
    ensures req.guardId in ctx && req.sessionId.None? ==> r == GpsResult(Crash("NullPointerException"), ctx)
    ensures req.guardId in ctx && req.sessionId.Some? ==>
              r.context == ctx[EngineSession(req.sessionId.value) := ctx[req.guardId]]
    ensures r.outcome.Rendered? ==>
      var id := ResolveEntityId(req, cfg);
      ChooseProfile(farm, id, cfg, req.edsEntityId).Ok?
      && doProfile(ChooseProfile(farm, id, cfg, req.edsEntityId).value, id) == Ok(r.outcome.response)
    ensures req.guardId in ctx && req.sessionId.Some? ==>
      var id := ResolveEntityId(req, cfg);
      var chosen := ChooseProfile(farm, id, cfg, req.edsEntityId);
      (chosen.Err? && chosen.error.Guanxi? ==> r.outcome == ErrorView(NoGuardMetadata))
      && (chosen.Err? && chosen.error.Runtime? ==> r.outcome == Crash(chosen.error.what))
      && (chosen.Ok? && doProfile(chosen.value, id).Err? && doProfile(chosen.value, id).error.Guanxi? ==>
            r.outcome == ErrorView(NoGuardMetadata))
      && (chosen.Ok? && doProfile(chosen.value, id).Err? && doProfile(chosen.value, id).error.Runtime? ==>
            r.outcome == Crash(doProfile(chosen.value, id).error.what))
      && (chosen.Ok? && doProfile(chosen.value, id).Ok? ==> r.outcome == Rendered(doProfile(chosen.value, id).value))
  {
    var id := ResolveEntityId(req, cfg);
    if req.guardId !in ctx then GpsResult(ErrorView(NoGuardMetadata), ctx)
    else if req.sessionId.None? then GpsResult(Crash("NullPointerException"), ctx)
    else
      var ctx' := ctx[EngineSession(req.sessionId.value) := ctx[req.guardId]];
      var outcome :=
        match ChooseProfile(farm, id, cfg, req.edsEntityId)
        case Err(Guanxi(_)) => ErrorView(NoGuardMetadata)
        case Err(Runtime(w)) => Crash(w)
        case Ok(p) =>
          match doProfile(p, id)
          case Err(Guanxi(_)) => ErrorView(NoGuardMetadata)
          case Err(Runtime(w)) => Crash(w)
          case Ok(resp) => Rendered(resp);
      GpsResult(outcome, ctx')
  }

  /** A known Guard asking for an IdP the farm has no manager for gets the error view. */
  lemma UnknownIdpShowsErrorView<R>(req: Request, cfg: Config, ctx: Context, farm: Farm,
                                    doProfile: (Profile, Option<string>) -> Result<R, Failure>)
    requires req.guardId in ctx && req.sessionId.Some? && req.entityId.Some? && req.entityId.value !in farm
    ensures Gps(req, cfg, ctx, farm, doProfile).outcome == ErrorView(NoGuardMetadata)
  {
  }

  /** With discovery on, the discovery service's answer is looked up as if it were the request's entityID. */
  lemma DiscoveryAnswerAsEntityId(farm: Farm, cfg: Config, e: string)
    requires cfg.useDiscovery
    ensures ChooseProfile(farm, None, cfg, Some(e)) == ChooseProfile(farm, Some(e), cfg, None)
  {
  }

  /** An explicit `entityID` parameter wins whatever the configured mapping says. */
  lemma ExplicitEntityIdWins(req: Request, cfg: Config, m: map<string, string>)
    requires req.entityId.Some?
    ensures ResolveEntityId(req, cfg.(entityIds := Some(m))) == req.entityId
  {
  }

  /** A Guard's own mapping beats the default mapping. */
  lemma GuardMappingBeatsDefault(req: Request, cfg: Config, m: map<string, string>, id: string, def: string)
    requires req.entityId.None? && req.guardId != DefaultMarker
    ensures ResolveEntityId(req, cfg.(entityIds := Some(m[req.guardId := id][DefaultMarker := def]))) == Some(id)
  {
  }
}
