/**
 * `X509Chain`: the engine's check of the certificates in a signature's
 * KeyInfo against the signing certificates of the loaded IdP metadata.
 * Certificates are abstract: a subject name and an issuer name. Parsing
 * the raw DER bytes is foreign code and comes in as a function that may
 * fail.
 */
module X509Chain {
  import opened Wrappers

  /** A certificate as far as the chain check looks at it. */
  datatype Cert = Cert(subject: string, issuer: string)

  /** The raw bytes of one `<ds:X509Certificate>`. */
  type Der = seq<bv8>

  /** The certificate parser: `None` when it raises a `CertificateException`. */
  type Parser = Der -> Option<Cert>

  /** `loadCertsFromXML`: the certificates parsed before the first one that fails. */
  function LoadCerts(raw: seq<Der>, parse: Parser): (r: seq<Cert>)
    ensures |r| <= |raw|
    ensures forall k :: 0 <= k < |r| ==> parse(raw[k]) == Some(r[k])
    ensures |r| < |raw| ==> parse(raw[|r|]).None?
  {
    if |raw| == 0 then []
    else match parse(raw[0])
      case None => []
      case Some(c) => [c] + LoadCerts(raw[1..], parse)
  }

  /** Some stored certificate has the subject of `c`. */
  predicate Known(c: Cert, store: set<Cert>) {
    exists s :: s in store && s.subject == c.subject
  }

  /** `findSignerCert`: the first presented certificate whose subject is that of a stored one. */
  function FindSigner(certs: seq<Cert>, store: set<Cert>): (r: Option<Cert>)
    ensures r.None? <==> forall k :: 0 <= k < |certs| ==> !Known(certs[k], store)
    ensures r.Some? ==> exists k :: 0 <= k < |certs| && certs[k] == r.value && Known(certs[k], store)
                           && forall j :: 0 <= j < k ==> !Known(certs[j], store)
  {
    if |certs| == 0 then None
    else if Known(certs[0], store) then Some(certs[0])
    else
      assert forall k :: 1 <= k < |certs| ==> certs[k] == certs[1..][k - 1];
      FindSigner(certs[1..], store)
  }

  /** `findNextCertInChain`: the first certificate whose subject is `name`. */
  function FindNext(certs: seq<Cert>, name: string): (r: Option<Cert>)
    ensures r.None? <==> forall k :: 0 <= k < |certs| ==> certs[k].subject != name
    ensures r.Some? ==> r.value in certs && r.value.subject == name
    ensures r.Some? ==> exists k :: 0 <= k < |certs| && certs[k] == r.value
                           && forall j :: 0 <= j < k ==> certs[j].subject != name
  {
    if |certs| == 0 then None
    else if certs[0].subject == name then Some(certs[0])
    else
      assert forall k :: 1 <= k < |certs| ==> certs[k] == certs[1..][k - 1];
      FindNext(certs[1..], name)
  }

  /** The `while` of `verifyChain`: up to `count` more look-ups of the current certificate's subject. */
  function Walk(certs: seq<Cert>, root: Option<Cert>, count: nat): Option<Cert>
    decreases count
  {
    if count == 0 || root.None? then root
    else Walk(certs, FindNext(certs, root.value.subject), count - 1)
  }

  /** `isRootCertTrusted`: any certificate at all. */
  predicate RootTrusted(root: Option<Cert>) {
    root.Some?
  }

  /** The verdict of an element of `count` raw certificates whose signer is `signer`. */
  predicate ChainVerdict(certs: seq<Cert>, signer: Cert, count: nat) {
    var root := Walk(certs, FindNext(certs, signer.issuer), count);
    root.Some? && RootTrusted(root)
  }

  /** What one `<ds:X509Data>` element does to the scan. */
  datatype Step = Skip | Stop | Replace(verdict: bool)

  /**
   * One element: skipped when no presented certificate is known, the end of
   * the scan when the single certificate is known, otherwise the chain
   * verdict, which replaces the one so far.
   */
  function ElementStep(raw: seq<Der>, store: set<Cert>, parse: Parser): Step {
    var certs := LoadCerts(raw, parse);
    match FindSigner(certs, store)
    case None => Skip
    case Some(signer) => if |raw| == 1 then Stop else Replace(ChainVerdict(certs, signer, |raw|))
  }

  /** The loop over the `<ds:X509Data>` elements, from `verdict` on. */
  function Scan(data: seq<seq<Der>>, store: set<Cert>, parse: Parser, verdict: bool): bool {
    if |data| == 0 then verdict
    else match ElementStep(data[0], store, parse)
      case Skip => Scan(data[1..], store, parse, verdict)
      case Stop => true
      case Replace(v) => Scan(data[1..], store, parse, v)
  }

  /** The `while` of `verifyChain`, bounded by the number of raw certificates. */
  method WalkChain(certs: seq<Cert>, start: Option<Cert>, count: nat) returns (rootCert: Option<Cert>)
    ensures rootCert == Walk(certs, start, count)
  {
    rootCert := start;
    var certCount := count;
    while certCount != 0 && rootCert.Some?
      invariant 0 <= certCount
      invariant Walk(certs, rootCert, certCount) == Walk(certs, start, count)
    {
      rootCert := FindNext(certs, rootCert.value.subject);
      certCount := certCount - 1;
    }
  }

  /** The body of `verifyChain`'s `for`. */
  method CheckElement(x509CertBytes: seq<Der>, store: set<Cert>, parse: Parser) returns (step: Step)
    ensures step == ElementStep(x509CertBytes, store, parse)
  {
    var x509CertsFromXml := LoadCerts(x509CertBytes, parse);
    var x509Signer := FindSigner(x509CertsFromXml, store);
    if x509Signer.None? {
      return Skip;
    }
    if |x509CertBytes| == 1 {
      return Stop;
    }
    var rootCert := WalkChain(x509CertsFromXml, FindNext(x509CertsFromXml, x509Signer.value.issuer), |x509CertBytes|);
    step := Replace(rootCert.Some? && RootTrusted(rootCert));
  }

  /** `verifyChain`. */
  method VerifyChain(x509Data: seq<seq<Der>>, store: set<Cert>, parse: Parser) returns (verified: bool)
    ensures verified == Scan(x509Data, store, parse, false)
  {
    verified := false;
    var c := 0;
    while c < |x509Data|
      invariant 0 <= c <= |x509Data|
      invariant Scan(x509Data[c..], store, parse, verified) == Scan(x509Data, store, parse, false)
    {
      assert x509Data[c..][1..] == x509Data[c + 1..];
      var step := CheckElement(x509Data[c], store, parse);
      if step.Stop? {
        verified := true;
        break;
      }
      if step.Replace? {
        verified := step.verdict;
      }
      c := c + 1;
    }
  }

  /** Looking up the subject of a presented certificate finds a certificate. */
  lemma {:induction false} WalkKeepsRoot(certs: seq<Cert>, root: Option<Cert>, count: nat)
    requires root.Some? ==> root.value in certs
    ensures Walk(certs, root, count).Some? <==> root.Some?
    decreases count
  {
    if count > 0 && root.Some? {
      var next := FindNext(certs, root.value.subject);
      assert next.Some?;
      WalkKeepsRoot(certs, next, count - 1);
    }
  }

  /**
   * The chain walk reduces to one test: some presented certificate has the
   * signer's issuer as its subject.
   */
  lemma ChainVerdictIsIssuerPresent(certs: seq<Cert>, signer: Cert, count: nat)
    ensures ChainVerdict(certs, signer, count) <==> exists k :: 0 <= k < |certs| && certs[k].subject == signer.issuer
  {
    WalkKeepsRoot(certs, FindNext(certs, signer.issuer), count);
  }

  /** With no element whose signer is known the verdict is unchanged, so `verifyChain` says false. */
  lemma {:induction false} NoneKnown(data: seq<seq<Der>>, store: set<Cert>, parse: Parser, verdict: bool)
    requires forall i :: 0 <= i < |data| ==> FindSigner(LoadCerts(data[i], parse), store).None?
    ensures Scan(data, store, parse, verdict) == verdict
  {
    if |data| > 0 {
      assert forall i :: 1 <= i < |data| ==> data[i] == data[1..][i - 1];
      NoneKnown(data[1..], store, parse, verdict);
    }
  }

  /** A known single certificate ends the scan with true, whatever follows. */
  lemma SingleKnownStops(cert: Der, rest: seq<seq<Der>>, store: set<Cert>, parse: Parser, verdict: bool)
    requires parse(cert).Some? && Known(parse(cert).value, store)
    ensures Scan([[cert]] + rest, store, parse, verdict)
  {
    assert LoadCerts([cert], parse) == [parse(cert).value];
  }

  /**
   * Of the elements with a known signer, the last decides, provided no
   * single known certificate came before it.
   */
  lemma {:induction false} LastKnownDecides(data: seq<seq<Der>>, last: seq<Der>, store: set<Cert>, parse: Parser, verdict: bool)
    requires forall i :: 0 <= i < |data| ==> !ElementStep(data[i], store, parse).Stop?
    requires ElementStep(last, store, parse).Replace?
    ensures Scan(data + [last], store, parse, verdict) == ElementStep(last, store, parse).verdict
    decreases |data|
  {
    if |data| == 0 {
      assert [] + [last] == [last];
    } else {
      assert (data + [last])[1..] == data[1..] + [last];
      assert forall i :: 1 <= i < |data| ==> data[i] == data[1..][i - 1];
      var step := ElementStep(data[0], store, parse);
      LastKnownDecides(data[1..], last, store, parse, if step.Replace? then step.verdict else verdict);
    }
  }

  /** The element's verdict when its signer is known and it has more than one certificate. */
  lemma ReplaceIsChainVerdict(raw: seq<Der>, store: set<Cert>, parse: Parser)
    requires |raw| != 1 && FindSigner(LoadCerts(raw, parse), store).Some?
    ensures var certs := LoadCerts(raw, parse);
      ElementStep(raw, store, parse) == Replace(exists k :: 0 <= k < |certs| && certs[k].subject == FindSigner(certs, store).value.issuer)
  {
    var certs := LoadCerts(raw, parse);
    ChainVerdictIsIssuerPresent(certs, FindSigner(certs, store).value, |raw|);
  }

  /** `updateTrustStore(KeyStore, …)`: the alias now holds the certificate. */
  function UpdateTrustStore(trustStore: map<string, Cert>, cert: Cert, alias: string): (r: map<string, Cert>)
    ensures alias in r && r[alias] == cert
    ensures forall a :: a != alias ==> (a in r <==> a in trustStore)
    ensures forall a :: a != alias && a in trustStore ==> r[a] == trustStore[a]
  {
    trustStore[alias := cert]
  }

  /** Updating twice under the same alias keeps only the second certificate. */
  lemma UpdateOverwrites(trustStore: map<string, Cert>, first: Cert, second: Cert, alias: string)
    ensures UpdateTrustStore(UpdateTrustStore(trustStore, first, alias), second, alias)
         == UpdateTrustStore(trustStore, second, alias)
  {
  }

  /**
   * The signing certificates of the metadata entries, parsed: `None` as
   * soon as one fails to parse; entries without one are skipped.
   */
  function Collect(signing: seq<Option<Der>>, parse: Parser): (r: Option<set<Cert>>)
    ensures r.Some? <==> forall k :: 0 <= k < |signing| && signing[k].Some? ==> parse(signing[k].value).Some?
    ensures r.Some? ==> forall c :: c in r.value <==>
              exists k :: 0 <= k < |signing| && signing[k].Some? && parse(signing[k].value) == Some(c)
  {
    if |signing| == 0 then Some({})
    else
      assert forall k :: 1 <= k < |signing| ==> signing[k] == signing[1..][k - 1];
      var rest := Collect(signing[1..], parse);
      if signing[0].None? then rest
      else match parse(signing[0].value)
        case None => None
        case Some(c) => if rest.None? then None else Some({c} + rest.value)
  }

  /**
   * `loadX509CertsFromMetadataManager`: the store becomes the set of parsed
   * signing certificates; an exception while parsing leaves the old store.
   */
  function LoadStore(signing: seq<Option<Der>>, parse: Parser, current: set<Cert>): (r: set<Cert>)
    ensures (exists k :: 0 <= k < |signing| && signing[k].Some? && parse(signing[k].value).None?) ==> r == current
    ensures (forall k :: 0 <= k < |signing| && signing[k].Some? ==> parse(signing[k].value).Some?) ==>
              forall c :: c in r <==>
                exists k :: 0 <= k < |signing| && signing[k].Some? && parse(signing[k].value) == Some(c)
  {
    match Collect(signing, parse)
    case None => current
    case Some(certs) => certs
  }
}
