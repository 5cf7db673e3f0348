/**
 * `MetadataLoader`: the job that replaces the IdP metadata loaded from the
 * database. Certificates are stored there as PEM text; the PEM framing is
 * modelled here, and the base64 codec, `org.apache.axis.encoding.Base64`,
 * is a pair of foreign functions.
 */
module MetadataLoader {
  import opened Wrappers
  import Text

  const PemPrefix := "-----BEGIN CERTIFICATE-----"
  const PemPostfix := "-----END CERTIFICATE-----"

  /** The name the loaded metadata is registered under with the metadata manager. */
  const MetadataSource := "hibernate"

  /**
   * Axis's `Base64.encode` and `Base64.decode`; `decode` is `None` when the
   * text cannot be decoded (the failure the source's `throws` clauses name
   * `Base64DecodingException`).
   */
  datatype Base64Codec = Base64Codec(encode: seq<bv8> -> string, decode: string -> Option<seq<bv8>>)

  /** The codec gives `b` back from its encoding. */
  predicate RoundTrips(codec: Base64Codec, b: seq<bv8>) {
    codec.decode(codec.encode(b)) == Some(b)
  }

  /** Why converting a PEM certificate failed. */
  datatype ConvertError = NotPem(pem: string) | NotBase64(text: string)

  /** A row of the database table. */
  datatype Row = Row(entityId: string, aaUrl: string, pem: string)

  /** An entry handed to the metadata manager. */
  datatype IdPMetadata = IdPMetadata(entityId: string, aaUrl: string, certificate: seq<bv8>)

  /** `x509ToPEM`: the base64 text between the two markers, with no line breaks added. */
  function X509ToPem(codec: Base64Codec, x509: seq<bv8>): (r: string)
    ensures |r| == |PemPrefix| + |codec.encode(x509)| + |PemPostfix|
    ensures Text.StartsWith(r, PemPrefix) && Text.EndsWith(r, PemPostfix)
    ensures r[|PemPrefix|..|r| - |PemPostfix|] == codec.encode(x509)
  {
    PemPrefix + codec.encode(x509) + PemPostfix
  }

  /** An occurrence of `p` in `s[k..]` is one in `s`, shifted by `k`. */
  lemma OccursShift(s: string, p: string, k: nat, j: int)
    requires k <= |s|
    ensures Text.OccursAt(s[k..], p, j) <==> j >= 0 && Text.OccursAt(s, p, k + j)
  {
    if j >= 0 && k + j + |p| <= |s| {
      assert s[k..][j..j + |p|] == s[k + j..k + j + |p|];
    }
  }

  /** A match of `prefix(.*)postfix`: the prefix at `i`, the postfix at `j`, nothing shared. */
  predicate Framed(s: string, i: int, j: int) {
    Text.OccursAt(s, PemPrefix, i) && Text.OccursAt(s, PemPostfix, j) && i + |PemPrefix| <= j
  }

  /** With no prefix, or no postfix after the first prefix, the pattern does not match. */
  lemma Unframed(s: string)
    requires var i := Text.IndexOf(s, PemPrefix);
      i == -1 || Text.LastIndexOf(s[i + |PemPrefix|..], PemPostfix) == -1
    ensures forall i, j :: !Framed(s, i, j)
  {
    var i := Text.IndexOf(s, PemPrefix);
    forall i', j' | Framed(s, i', j') ensures false {
      var k := i + |PemPrefix|;
      OccursShift(s, PemPostfix, k, j' - k);
    }
  }

  /** The first prefix and the last postfix after it frame the body. */
  lemma FramedAt(s: string, i: int, j: int)
    requires i == Text.IndexOf(s, PemPrefix) && i != -1
    requires j == Text.LastIndexOf(s[i + |PemPrefix|..], PemPostfix) && j != -1
    ensures Framed(s, i, i + |PemPrefix| + j)
    ensures forall j' :: j' > i + |PemPrefix| + j ==> !Text.OccursAt(s, PemPostfix, j')
  {
    var k := i + |PemPrefix|;
    OccursShift(s, PemPostfix, k, j);
    forall j' | j' > k + j ensures !Text.OccursAt(s, PemPostfix, j') {
      OccursShift(s, PemPostfix, k, j' - k);
    }
  }

  /**
   * `matcher.find()` and `group(1)` of the greedy, DOTALL pattern: the text
   * from the first prefix to the last postfix after it.
   */
  function PemBody(s: string): (r: Option<string>)
    ensures r.None? <==> forall i, j :: !Framed(s, i, j)
    ensures r.Some? ==> exists i, j :: Framed(s, i, j) && r.value == s[i + |PemPrefix|..j]
                          && (forall i' :: i' < i ==> !Text.OccursAt(s, PemPrefix, i'))
                          && (forall j' :: j' > j ==> !Text.OccursAt(s, PemPostfix, j'))
  {
    var i := Text.IndexOf(s, PemPrefix);
    if i == -1 then
      Unframed(s);
      None
    else
      var rest := s[i + |PemPrefix|..];
      var j := Text.LastIndexOf(rest, PemPostfix);
      if j == -1 then
        Unframed(s);
        None
      else
        FramedAt(s, i, j);
        assert rest[..j] == s[i + |PemPrefix|..i + |PemPrefix| + j];
        Some(rest[..j])
  }

  /**
   * `pemToX509`: an `IllegalArgumentException` without the framing, else
   * the decoded body.
   */
  function PemToX509(codec: Base64Codec, pem: string): (r: Result<seq<bv8>, ConvertError>)
    ensures PemBody(pem).None? ==> r == Err(NotPem(pem))
    ensures PemBody(pem).Some? ==>
              (r.Ok? <==> codec.decode(PemBody(pem).value).Some?)
              && (r.Ok? ==> Some(r.value) == codec.decode(PemBody(pem).value))
  {
    match PemBody(pem)
    case None => Err(NotPem(pem))
    case Some(body) =>
      match codec.decode(body)
      case None => Err(NotBase64(body))
      case Some(b) => Ok(b)
  }

  /** The framing and unframing are inverse, given a codec that round-trips. */
  lemma PemRoundTrip(codec: Base64Codec, x509: seq<bv8>)
    requires RoundTrips(codec, x509)
    ensures PemToX509(codec, X509ToPem(codec, x509)) == Ok(x509)
  {
    var e := codec.encode(x509);
    var s := X509ToPem(codec, x509);
    assert Text.OccursAt(s, PemPrefix, 0);
    var rest := s[|PemPrefix|..];
    assert rest == e + PemPostfix;
    assert Text.OccursAt(rest, PemPostfix, |e|);
    assert Text.LastIndexOf(rest, PemPostfix) == |e|;
    assert rest[..|e|] == e;
  }

  /** Text without the prefix is not a PEM certificate. */
  lemma NoPrefixRejected(codec: Base64Codec, s: string)
    requires !Text.Contains(s, PemPrefix)
    ensures PemToX509(codec, s) == Err(NotPem(s))
  {
  }

  /**
   * `convert`: one entry per row, in order, with the entityID and AA URL
   * copied and the certificate unframed; the first row that fails aborts
   * the whole conversion.
   */
  function Convert(codec: Base64Codec, rows: seq<Row>): (r: Result<seq<IdPMetadata>, ConvertError>)
    ensures r.Ok? <==> forall k :: 0 <= k < |rows| ==> PemToX509(codec, rows[k].pem).Ok?
    ensures r.Ok? ==> |r.value| == |rows|
    ensures r.Ok? ==> forall k :: 0 <= k < |rows| ==>
              r.value[k] == IdPMetadata(rows[k].entityId, rows[k].aaUrl, PemToX509(codec, rows[k].pem).value)
  {
    if |rows| == 0 then Ok([])
    else
      assert forall k :: 1 <= k < |rows| ==> rows[k] == rows[1..][k - 1];
      match PemToX509(codec, rows[0].pem)
      case Err(e) => Err(e)
      case Ok(cert) =>
        match Convert(codec, rows[1..])
        case Err(e) => Err(e)
        case Ok(more) => Ok([IdPMetadata(rows[0].entityId, rows[0].aaUrl, cert)] + more)
  }

  /** The metadata manager's sources after the job, and whether it raised `JobExecutionException`. */
  datatype JobResult = JobResult(sources: map<string, seq<IdPMetadata>>, failed: bool)

  /**
   * `execute`. `loaded` is what the database query returned (`None` when it
   * raised). The "hibernate" source is replaced only when loading and
   * converting both succeed; otherwise the manager keeps what it had.
   */
  function Execute(codec: Base64Codec, sources: map<string, seq<IdPMetadata>>, loaded: Option<seq<Row>>)
    : (r: JobResult)
    ensures r.failed <==> loaded.None? || Convert(codec, loaded.value).Err?
    ensures r.failed ==> r.sources == sources
    ensures !r.failed ==> MetadataSource in r.sources && r.sources[MetadataSource] == Convert(codec, loaded.value).value
    ensures forall name :: name != MetadataSource ==>
              (name in r.sources <==> name in sources) && (name in sources ==> r.sources[name] == sources[name])
  {
    match loaded
    case None => JobResult(sources, true)
    case Some(rows) =>
      match Convert(codec, rows)
      case Err(_) => JobResult(sources, true)
      case Ok(converted) => JobResult(sources[MetadataSource := converted], false)
  }

  /** Rows whose certificates were framed by `x509ToPEM` convert back to those certificates. */
  lemma {:induction false} ConvertFramed(codec: Base64Codec, rows: seq<Row>, certs: seq<seq<bv8>>)
    requires |rows| == |certs|
    requires forall k :: 0 <= k < |rows| ==> rows[k].pem == X509ToPem(codec, certs[k]) && RoundTrips(codec, certs[k])
    ensures Convert(codec, rows).Ok?
    ensures forall k :: 0 <= k < |rows| ==> Convert(codec, rows).value[k].certificate == certs[k]
  {
    forall k | 0 <= k < |rows| ensures PemToX509(codec, rows[k].pem) == Ok(certs[k]) {
      PemRoundTrip(codec, certs[k]);
    }
  }
}
