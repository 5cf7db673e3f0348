/**
 * `RegisterGuardFormController`: registering a new Guard with the engine.
 * From the form it builds the Guard's X.500 name, its metadata directory,
 * keystore and entityID, its service URLs, and asks the engine's CA for a
 * certificate chain. Key generation, signing, the keystore and metadata
 * files and the random keystore password are foreign; the CA's root
 * certificate and the clock come in as parameters.
 */
module RegisterGuard {
  import opened Wrappers
  import Text
  import opened Saml
  import X509Chain
  import SecureEndpoints

  /** The fields of the registration form the controller reads. */
  datatype Form = Form(guardId: string, orgUnit: string, org: string, city: string, locality: string,
                       country: string, scheme: string, url: string, port: string, applicationName: string)

  /** The X.500 name fields, in the order the name lists them. */
  function DnFields(form: Form): seq<string> {
    ["CN=" + form.guardId, "OU=" + form.orgUnit, "O=" + form.org,
     "L=" + form.city, "ST=" + form.locality, "C=" + form.country]
  }

  /** The distinguished name of the Guard's certificate: the Guard id keeps its case. */
  function X509Dn(form: Form): (r: string)
    ensures Text.StartsWith(r, "CN=" + form.guardId)
  {
    var fields := DnFields(form);
    Text.JoinCons(fields[0], fields[1..], ",");
    assert [fields[0]] + fields[1..] == fields;
    Text.Join(fields, ",")
  }

  /** No field of the form holds a comma. */
  predicate CommaFree(form: Form) {
    forall k :: 0 <= k < |DnFields(form)| ==> !Text.Contains(DnFields(form)[k], ",")
  }

  /** Without commas in the form, the name splits back into its six fields, in order. */
  lemma DnSplits(form: Form)
    requires CommaFree(form)
    ensures Text.SplitAll(X509Dn(form), ",") == DnFields(form)
  {
    Text.SplitJoin(DnFields(form), ",");
  }

  /** The Guard id as the engine files it: lower-cased. */
  function FileId(form: Form): string {
    Text.Lower(form.guardId)
  }

  /** `config.getGuardsMetadataDirectory()` + separator + the lower-cased id. */
  function MetadataDirectory(guardsDir: string, slash: string, form: Form): (r: string)
    ensures Text.StartsWith(r, guardsDir + slash)
    ensures Text.EndsWith(r, Text.Lower(form.guardId))
  {
    guardsDir + slash + FileId(form)
  }

  /** Where the Guard's files go, its keystore alias and its metadata entityID. */
  datatype Names = Names(directory: string, keystore: string, alias: string, metadataFile: string, entityId: string)

  function GuardNames(guardsDir: string, slash: string, form: Form): (r: Names)
    ensures r.directory == MetadataDirectory(guardsDir, slash, form)
    ensures r.keystore == r.directory + slash + Text.Lower(form.guardId) + ".jks"
    ensures r.metadataFile == r.directory + slash + Text.Lower(form.guardId) + ".xml"
    ensures r.alias == Text.Lower(form.guardId) && r.entityId == Text.Lower(form.guardId)
  {
    var dir := MetadataDirectory(guardsDir, slash, form);
    Names(dir, dir + slash + FileId(form) + ".jks", FileId(form), dir + slash + FileId(form) + ".xml", FileId(form))
  }

  /** Guard ids that differ only in case get the same files and entityID, but different names. */
  lemma CaseFoldedNames(guardsDir: string, slash: string, a: Form, b: Form)
    requires Text.EqualsIgnoreCase(a.guardId, b.guardId)
    ensures GuardNames(guardsDir, slash, a) == GuardNames(guardsDir, slash, b)
    ensures a.guardId != b.guardId ==> X509Dn(a) != X509Dn(b)
  {
    if a.guardId != b.guardId {
      assert |Text.Lower(a.guardId)| == |Text.Lower(b.guardId)|;
      var n := 3 + |a.guardId|;
      assert X509Dn(a)[..n] == "CN=" + a.guardId && X509Dn(b)[..n] == "CN=" + b.guardId;
      assert X509Dn(a)[3..n] == ("CN=" + a.guardId)[3..] == a.guardId;
      assert X509Dn(b)[3..n] == ("CN=" + b.guardId)[3..] == b.guardId;
    }
  }

  /** The application URL: the port is left out when it is exactly "80". */
  function AppUrl(form: Form): (r: string)
    ensures form.port == "80" ==> r == form.scheme + "://" + form.url + "/" + form.applicationName
    ensures form.port != "80" ==> r == form.scheme + "://" + form.url + ":" + form.port + "/" + form.applicationName
  {
    var base := form.scheme + "://" + form.url;
    var withPort := if form.port != "80" then base + ":" + form.port else base;
    withPort + "/" + form.applicationName
  }

  /** The Guard's service URLs in its metadata extension. */
  function GuardServices(form: Form): (r: GuardExt)
    ensures r.verifierUrl == AppUrl(form) + "/guard.sessionVerifier"
    ensures r.acsUrl == AppUrl(form) + "/guard.guanxiGuardACS"
    ensures r.podderUrl == AppUrl(form) + "/guard.guanxiGuardPodder"
  {
    var app := AppUrl(form);
    GuardExt(app + "/guard.sessionVerifier", app + "/guard.guanxiGuardACS", app + "/guard.guanxiGuardPodder")
  }

  /** A URL starts with "https", ignoring case, exactly when its scheme does. */
  lemma SchemePrefix(scheme: string, rest: string)
    ensures Text.StartsWith(Text.Lower(scheme + "://" + rest), "https") <==> Text.StartsWith(Text.Lower(scheme), "https")
  {
    var s := scheme + "://" + rest;
    var l := Text.Lower(s);
    if |scheme| >= 5 {
      assert l[..5] == Text.Lower(scheme)[..5];
    } else if |l| >= 5 {
      assert s[|scheme|] == ':';
      assert l[..5][|scheme|] == ':';
    }
  }

  /** A newly registered Guard counts as secure exactly when its scheme starts with "https", in any case. */
  lemma RegisteredGuardSecure(form: Form)
    ensures SecureEndpoints.IsGuardSecure(GuardServices(form)) <==> Text.StartsWith(Text.Lower(form.scheme), "https")
  {
    var app := AppUrl(form);
    var tail := app[|form.scheme| + 3..];
    assert app == form.scheme + "://" + tail;
    assert GuardServices(form).verifierUrl == form.scheme + "://" + (tail + "/guard.sessionVerifier");
    assert GuardServices(form).acsUrl == form.scheme + "://" + (tail + "/guard.guanxiGuardACS");
    SchemePrefix(form.scheme, tail + "/guard.sessionVerifier");
    SchemePrefix(form.scheme, tail + "/guard.guanxiGuardACS");
  }

  /** `generateRequest`: the CSR's signature algorithm; `None` is the null request of an unknown key type. */
  function RequestAlgorithm(keyType: string): (r: Option<string>)
    ensures Text.Lower(keyType) == "rsa" ==> r == Some("SHA256withRSA")
    ensures Text.Lower(keyType) == "dsa" ==> r == Some("DSAWithSHA1")
    ensures r.None? <==> Text.Lower(keyType) != "rsa" && Text.Lower(keyType) != "dsa"
  {
    var t := Text.Lower(keyType);
    if t == "rsa" then Some("SHA256withRSA")
    else if t == "dsa" then Some("DSAWithSHA1")
    else None
  }

  /** `createSignedCert`: the issued certificate's signature algorithm, unset for other key types. */
  function CertAlgorithm(keyType: string): (r: Option<string>)
    ensures r.Some? <==> RequestAlgorithm(keyType).Some?
    ensures Text.Lower(keyType) == "rsa" ==> r == Some("SHA256WithRSAEncryption")
    ensures Text.Lower(keyType) == "dsa" ==> r == Some("DSAWithSHA1")
  {
    var t := Text.Lower(keyType);
    if t == "rsa" then Some("SHA256WithRSAEncryption")
    else if t == "dsa" then Some("DSAWithSHA1")
    else None
  }

  /** The key type is compared ignoring case. */
  lemma KeyTypeIgnoresCase(a: string, b: string)
    requires Text.EqualsIgnoreCase(a, b)
    ensures RequestAlgorithm(a) == RequestAlgorithm(b) && CertAlgorithm(a) == CertAlgorithm(b)
  {
  }

  const TenMinutesMs := 10 * 60 * 1000
  const TwentyDaysMs := 20 * (24 * 60 * 60 * 1000)

  /** The certificate's validity in milliseconds since the epoch, from the clock reading `now`. */
  datatype Validity = Validity(notBefore: int, notAfter: int)

  function ValidityWindow(now: int): (r: Validity)
    ensures r.notBefore == now - 600_000 && r.notAfter == now + 1_728_000_000
    ensures r.notBefore < now < r.notAfter
  {
    Validity(now - TenMinutesMs, now + TwentyDaysMs)
  }

  /** The constant products are Java `int` arithmetic: they stay below 2^31, so nothing wraps. */
  lemma WindowFitsInt()
    ensures 0 < TenMinutesMs < TwentyDaysMs < 0x8000_0000
  {
  }

  /** `createSignedCert`: the issued certificate, named by the request and issued by the root, then the root. */
  function IssuedChain(dn: string, root: X509Chain.Cert): (r: seq<X509Chain.Cert>)
    ensures |r| == 2 && r[1] == root
    ensures r[0].subject == dn && r[0].issuer == root.subject
  {
    [X509Chain.Cert(dn, root.subject), root]
  }

  /** The chain the engine issues passes `verifyChain`'s walk once its signer is known. */
  lemma IssuedChainVerifies(dn: string, root: X509Chain.Cert)
    ensures X509Chain.ChainVerdict(IssuedChain(dn, root), IssuedChain(dn, root)[0], 2)
  {
    X509Chain.ChainVerdictIsIssuerPresent(IssuedChain(dn, root), IssuedChain(dn, root)[0], 2);
    assert IssuedChain(dn, root)[1].subject == root.subject;
  }

  /** What `onSubmit` produces. */
  datatype Outcome =
    | ErrorView(messageKey: string)
    | Registered(names: Names, dn: string, services: GuardExt, chain: Option<seq<X509Chain.Cert>>)

  const CreateDirError := "register.guard.error.create.dir"

  /**
   * `onSubmit`. `mkdir` is whether the metadata directory could be created;
   * `root` is the CA's root certificate, `None` when the CA keystore has
   * none. The chain is missing when the key type is unknown or there is no
   * root; the metadata is written either way.
   */
  function OnSubmit(form: Form, guardsDir: string, slash: string, keyType: string, mkdir: bool,
                    root: Option<X509Chain.Cert>): (r: Outcome)
    ensures !mkdir <==> r == ErrorView(CreateDirError)
    ensures r.Registered? ==>
      r.names == GuardNames(guardsDir, slash, form) && r.dn == X509Dn(form) && r.services == GuardServices(form)
      && (r.chain.Some? <==> RequestAlgorithm(keyType).Some? && root.Some?)
      && (r.chain.Some? ==> r.chain.value == IssuedChain(X509Dn(form), root.value))
  {
    if !mkdir then ErrorView(CreateDirError)
    else
      var dn := X509Dn(form);
      var chain := if RequestAlgorithm(keyType).Some? && root.Some? then Some(IssuedChain(dn, root.value)) else None;
      Registered(GuardNames(guardsDir, slash, form), dn, GuardServices(form), chain)
  }
}
