/**
 * The HTTPS tests of the engine's `Util` class: is a Guard, or an IdP's
 * attribute authority, reached over HTTPS?
 */
module SecureEndpoints {
  import opened Wrappers
  import Text
  import opened Saml

  /** `u`'s first five characters spell "https" once lower-cased, one by one. */
  predicate HttpsScheme(u: string) {
    |u| >= 5 && forall k :: 0 <= k < 5 ==> Text.LowerChar(u[k]) == "https"[k]
  }

  /** Lower-casing the whole URL and testing its prefix is testing its first five characters. */
  lemma LowerStartsHttps(u: string)
    ensures Text.StartsWith(Text.Lower(u), "https") <==> HttpsScheme(u)
  {
    if HttpsScheme(u) {
      assert Text.Lower(u)[..5] == "https";
    }
    if Text.StartsWith(Text.Lower(u), "https") {
      forall k | 0 <= k < 5 ensures Text.LowerChar(u[k]) == "https"[k] {
        assert Text.Lower(u)[..5][k] == "https"[k];
      }
    }
  }

  /**
   * `isGuardSecure`: the verifier or the ACS URL starts with "https",
   * ignoring case; the podder URL is not looked at.
   */
  predicate IsGuardSecure(ext: GuardExt)
    ensures IsGuardSecure(ext) <==> HttpsScheme(ext.verifierUrl) || HttpsScheme(ext.acsUrl)
  {
    LowerStartsHttps(ext.verifierUrl);
    LowerStartsHttps(ext.acsUrl);
    Text.StartsWith(Text.Lower(ext.verifierUrl), "https") || Text.StartsWith(Text.Lower(ext.acsUrl), "https")
  }

  /**
   * `isAASecure`: the first attribute service of the first attribute
   * authority starts with "https", case-sensitively; an index error when
   * either is missing.
   */
  function IsAaSecure(md: EntityDescriptor): (r: Result<bool, Failure>)
    ensures r.Err? <==> |md.authorities| == 0 || |md.authorities[0].services| == 0
    ensures r.Ok? ==> (r.value <==> Text.StartsWith(md.authorities[0].services[0].location, "https"))
  {
    if |md.authorities| == 0 || |md.authorities[0].services| == 0 then Err(Runtime("ArrayIndexOutOfBoundsException"))
    else Ok(Text.StartsWith(md.authorities[0].services[0].location, "https"))
  }

  /** The podder URL does not matter. */
  lemma PodderIgnored(ext: GuardExt, podder: string)
    ensures IsGuardSecure(ext) <==> IsGuardSecure(ext.(podderUrl := podder))
  {
  }

  lemma LowerHttps(rest: string)
    ensures Text.StartsWith(Text.Lower("HTTPS" + rest), "https")
  {
    Text.LowerAppend("HTTPS", rest);
    assert Text.Lower("HTTPS") == "https";
  }

  /** An upper-case "HTTPS" makes a Guard secure but not an attribute authority. */
  lemma UpperCaseScheme(rest: string, ext: GuardExt, md: EntityDescriptor)
    requires ext.verifierUrl == "HTTPS" + rest
    requires |md.authorities| > 0 && |md.authorities[0].services| > 0
    requires md.authorities[0].services[0].location == "HTTPS" + rest
    ensures IsGuardSecure(ext) && IsAaSecure(md) == Ok(false)
  {
    LowerHttps(rest);
    assert ("HTTPS" + rest)[..5][1] == 'T';
  }

  /** Attribute services after the first do not matter. */
  lemma OnlyFirstService(md: EntityDescriptor, more: seq<Endpoint>)
    requires |md.authorities| > 0 && |md.authorities[0].services| > 0
    ensures var a := md.authorities[0];
      IsAaSecure(md) == IsAaSecure(md.(authorities := [a.(services := [a.services[0]] + more)] + md.authorities[1..]))
  {
  }
}
