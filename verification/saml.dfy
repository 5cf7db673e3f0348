/**
 * The SAML 2.0 metadata the engine routes on, reduced to what its decisions
 * read: single sign-on endpoints with their bindings, attribute services, and
 * the Guanxi extension of a Guard's role descriptor. The servlet context and
 * the entity farm become maps; the failures the Java code raises become
 * `Failure` values.
 */
module Saml {
  import opened Wrappers
  import Text

  /** The HTTP-POST binding's URI (section 3.5 of the SAML 2.0 Bindings standard). */
  const BindingPost := "urn:oasis:names:tc:SAML:2.0:bindings:HTTP-POST"
  /** The HTTP-Redirect binding's URI (section 3.4 of the SAML 2.0 Bindings standard). */
  const BindingRedirect := "urn:oasis:names:tc:SAML:2.0:bindings:HTTP-Redirect"

  datatype Endpoint = Endpoint(binding: string, location: string)

  /** An `IDPSSODescriptor`: its `SingleSignOnService` endpoints. */
  datatype IdpSso = IdpSso(ssos: seq<Endpoint>)

  /** An `AttributeAuthorityDescriptor`: its `AttributeService` endpoints. */
  datatype AttributeAuthority = AttributeAuthority(services: seq<Endpoint>)

  datatype EntityDescriptor = EntityDescriptor(entityId: string, idpSso: seq<IdpSso>,
                                               authorities: seq<AttributeAuthority>)

  /** The `GuanxiGuardService` extension of a Guard's metadata. */
  datatype GuardExt = GuardExt(verifierUrl: string, acsUrl: string, podderUrl: string)

  /** A Guard's metadata as the bootstrapper stores it in the servlet context. */
  datatype Guard = Guard(entityId: string, ext: GuardExt)

  /** The servlet context's attributes that hold Guard metadata, by name. */
  type Context = map<string, Guard>

  /** The entity farm: for each entityID its manager, and the metadata that manager holds by entityID. */
  type Farm = map<string, map<string, EntityDescriptor>>

  /** A Java exception: a `GuanxiException` with its message, or an unchecked runtime exception. */
  datatype Failure = Guanxi(message: string) | Runtime(what: string)

  /** The message of the exceptions raised when an IdP has no manager or no metadata. */
  function NoManager(id: string): string { "Could not find manager for IdP " + id }
  function NoMetadata(id: string): string { "Could not find metadata for IdP " + id }

  /**
   * `farm.getEntityManagerForID(id)` then `manager.getMetadata(id)`, with the
   * `GuanxiException` the profile services raise when either is missing.
   */
  function IdpMetadata(farm: Farm, id: string): (r: Result<EntityDescriptor, Failure>)
    ensures id !in farm ==> r == Err(Guanxi(NoManager(id)))
    ensures id in farm && id !in farm[id] ==> r == Err(Guanxi(NoMetadata(id)))
    ensures id in farm && id in farm[id] ==> r == Ok(farm[id][id])
  {
    if id !in farm then Err(Guanxi(NoManager(id)))
    else if id !in farm[id] then Err(Guanxi(NoMetadata(id)))
    else Ok(farm[id][id])
  }

  /** `getIDPSSODescriptorArray(0).getSingleSignOnServiceArray()`: an index error without a descriptor. */
  function SsoEndpoints(md: EntityDescriptor): (r: Result<seq<Endpoint>, Failure>)
    ensures |md.idpSso| == 0 <==> r.Err?
    ensures r.Ok? ==> r.value == md.idpSso[0].ssos
  {
    if |md.idpSso| == 0 then Err(Runtime("ArrayIndexOutOfBoundsException")) else Ok(md.idpSso[0].ssos)
  }

  /** The engine's name for a Guard session: every "GUARD" replaced by "ENGINE". */
  function EngineSession(guardSession: string): (r: string)
    ensures r == Text.Join(Text.SplitAll(guardSession, "GUARD"), "ENGINE")
    ensures !Text.Contains(guardSession, "GUARD") ==> r == guardSession
  {
    Text.ReplaceAllSplitJoin(guardSession, "GUARD", "ENGINE");
    Text.ReplaceAll(guardSession, "GUARD", "ENGINE")
  }

  /** The Guard's name for an engine session: every "ENGINE" replaced by "GUARD". */
  function GuardSession(engineSession: string): (r: string)
    ensures r == Text.Join(Text.SplitAll(engineSession, "ENGINE"), "GUARD")
    ensures !Text.Contains(engineSession, "ENGINE") ==> r == engineSession
  {
    Text.ReplaceAllSplitJoin(engineSession, "ENGINE", "GUARD");
    Text.ReplaceAll(engineSession, "ENGINE", "GUARD")
  }
}
