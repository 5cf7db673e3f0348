/**
 * `ClusteredSSOAuthConsumerService`: several Guards behind one external SP
 * entityID, each registered as `<internal guard id>::<external entityID>`.
 * It overrides how an unsolicited response finds its Guard and which
 * identity decrypts a response.
 */
module ClusteredAcs {
  import opened Wrappers
  import Text
  import opened Saml
  import AuthConsumer

  const Delimiter := "::"

  /**
   * `getClusterSPEntityId`: field 1 of Java's `split("::")`. Without the
   * delimiter a `GuanxiException` is raised; with nothing after it the
   * trailing empty field is dropped and indexing fails.
   */
  function ClusterSpEntityId(entityId: string): (r: Result<string, Failure>)
    ensures !Text.Contains(entityId, Delimiter) ==> r == Err(Guanxi("Expected a clustered guard entity id"))
    ensures r.Ok? ==>
      Text.Contains(entityId, Delimiter)
      && var rest := entityId[Text.IndexOf(entityId, Delimiter) + 2..];
      (Text.Contains(rest, Delimiter) ==> r.value == rest[..Text.IndexOf(rest, Delimiter)])
      && (!Text.Contains(rest, Delimiter) ==> r.value == rest)
    ensures Text.Contains(entityId, Delimiter) ==>
      (r.Ok? <==> exists k :: 1 <= k < |Text.SplitAll(entityId, Delimiter)| && Text.SplitAll(entityId, Delimiter)[k] != "")
    ensures Text.Contains(entityId, Delimiter) && r.Err? ==> r == Err(Runtime("ArrayIndexOutOfBoundsException"))
  {
    if Text.Contains(entityId, Delimiter) then
      var fields := Text.JavaSplit(entityId, Delimiter);
      SecondFieldKept(Text.SplitAll(entityId, Delimiter));
      if |fields| >= 2 then
        Text.SplitAllAt(entityId, Delimiter);
        var rest := entityId[Text.IndexOf(entityId, Delimiter) + 2..];
        assert fields[1] == Text.SplitAll(entityId, Delimiter)[1] == Text.SplitAll(rest, Delimiter)[0];
        Ok(fields[1])
      else Err(Runtime("ArrayIndexOutOfBoundsException"))
    else Err(Guanxi("Expected a clustered guard entity id"))
  }

  /** Dropping trailing empty fields leaves a field 1 exactly when some field after the first has text. */
  lemma SecondFieldKept(xs: seq<string>)
    ensures |Text.DropTrailingEmpty(xs)| >= 2 <==> exists k :: 1 <= k < |xs| && xs[k] != ""
  {
    var r := Text.DropTrailingEmpty(xs);
    if |r| >= 2 {
      assert r[|r| - 1] == xs[|r| - 1];
    }
  }

  /** A Guard id free of the delimiter, and not ending in ':', is the first field of `guard::rest`. */
  lemma SplitPair(guard: string, rest: string)
    requires !Text.Contains(guard, Delimiter) && (|guard| == 0 || guard[|guard| - 1] != ':')
    ensures Text.Contains(guard + Delimiter + rest, Delimiter)
    ensures Text.SplitAll(guard + Delimiter + rest, Delimiter) == [guard] + Text.SplitAll(rest, Delimiter)
  {
    var s := guard + Delimiter + rest;
    assert Text.OccursAt(s, Delimiter, |guard|);
    forall j | 0 <= j < |guard| ensures !Text.OccursAt(s, Delimiter, j) {
      if j + 2 <= |guard| {
        assert s[j..j + 2] == guard[j..j + 2];
        assert !Text.OccursAt(guard, Delimiter, j);
      } else {
        assert s[j..j + 2][0] == s[j] == guard[|guard| - 1];
      }
    }
    assert Text.IndexOf(s, Delimiter) == |guard|;
    assert s[|guard| + 2..] == rest && s[..|guard|] == guard;
    Text.SplitAllAt(s, Delimiter);
  }

  /** An id ending in its first delimiter has no field 1 once the trailing empty field is dropped. */
  lemma TrailingDelimiterFails(guard: string)
    requires !Text.Contains(guard, Delimiter) && (|guard| == 0 || guard[|guard| - 1] != ':')
    ensures ClusterSpEntityId(guard + Delimiter) == Err(Runtime("ArrayIndexOutOfBoundsException"))
  {
    SplitPair(guard, "");
    assert guard + Delimiter + "" == guard + Delimiter;
    assert Text.SplitAll("", Delimiter) == [""];
  }

  /** A clustered id `guard::sp` names the SP `sp`. */
  lemma ClusterIdOfPair(guard: string, sp: string)
    requires !Text.Contains(guard, Delimiter) && !Text.Contains(sp, Delimiter) && sp != ""
    requires |guard| == 0 || guard[|guard| - 1] != ':'
    ensures ClusterSpEntityId(guard + Delimiter + sp) == Ok(sp)
  {
    SplitPair(guard, sp);
    assert Text.SplitAll(sp, Delimiter) == [sp];
  }

  /** The first name in `names` ending with `suffix`, as an index. */
  function FirstEndingWith(names: seq<string>, suffix: string): (r: Option<nat>)
    ensures r.None? <==> forall k :: 0 <= k < |names| ==> !Text.EndsWith(names[k], suffix)
    ensures r.Some? ==> r.value < |names| && Text.EndsWith(names[r.value], suffix)
                        && forall j :: 0 <= j < r.value ==> !Text.EndsWith(names[j], suffix)
  {
    if |names| == 0 then None
    else if Text.EndsWith(names[0], suffix) then Some(0)
    else
      match FirstEndingWith(names[1..], suffix)
      case None => None
      case Some(i) => Some(i + 1)
  }

  /**
   * The overridden `getUnsolicitedGuard`. A `guardid` parameter with text
   * selects that context entry. Otherwise the first context name, in the
   * order `names` the context enumerates them, that ends with the delimiter
   * and the relay state's `sp` value is used; a missing `sp` is concatenated
   * as the text "null", as Java does.
   */
  function UnsolicitedGuard(guardParam: Option<string>, query: Option<string>, ctx: Context,
                            names: seq<string>): (r: Result<Option<Guard>, Failure>)
    ensures guardParam.Some? && Text.HasText(guardParam.value) ==> r == Ok(Get(ctx, guardParam.value))
    ensures !(guardParam.Some? && Text.HasText(guardParam.value)) && AuthConsumer.QueryMap(query).Ok? ==>
      var m := AuthConsumer.QueryMap(query).value;
      var sp := if "sp" in m then m["sp"] else "null";
      (r.Err? <==> forall k :: 0 <= k < |names| ==> !Text.EndsWith(names[k], Delimiter + sp))
      && (r.Ok? ==> exists k :: 0 <= k < |names| && Text.EndsWith(names[k], Delimiter + sp)
                               && r.value == Get(ctx, names[k])
                               && forall j :: 0 <= j < k ==> !Text.EndsWith(names[j], Delimiter + sp))
    ensures !(guardParam.Some? && Text.HasText(guardParam.value)) && AuthConsumer.QueryMap(query).Err?
      ==> r == Err(AuthConsumer.QueryMap(query).error)
  {
    if guardParam.Some? && Text.HasText(guardParam.value) then Ok(Get(ctx, guardParam.value))
    else
      match AuthConsumer.QueryMap(query)
      case Err(e) => Err(e)
      case Ok(m) =>
        var sp := if "sp" in m then m["sp"] else "null";
        match FirstEndingWith(names, Delimiter + sp)
        case None => Err(Guanxi("Cannot determine a guard for clustered entityid:" + sp))
        case Some(i) => Ok(Get(ctx, names[i]))
  }

  /**
   * The identity `decryptResponse` decrypts with: for a clustered entityID the
   * external SP's id and the Guard extension stored under it (an exception
   * when there is none), otherwise the original id and extension.
   */
  function DecryptionIdentity(entityId: string, ext: GuardExt, ctx: Context): (r: Result<(string, GuardExt), Failure>)
    ensures !Text.Contains(entityId, Delimiter) ==> r == Ok((entityId, ext))
    ensures Text.Contains(entityId, Delimiter) && r.Ok? ==>
              ClusterSpEntityId(entityId) == Ok(r.value.0) && r.value.0 in ctx && r.value.1 == ctx[r.value.0].ext
    ensures Text.Contains(entityId, Delimiter) && ClusterSpEntityId(entityId).Ok?
            && ClusterSpEntityId(entityId).value in ctx
            ==> r == Ok((ClusterSpEntityId(entityId).value, ctx[ClusterSpEntityId(entityId).value].ext))
    ensures Text.Contains(entityId, Delimiter) && ClusterSpEntityId(entityId).Err?
            ==> r == Err(ClusterSpEntityId(entityId).error)
    ensures Text.Contains(entityId, Delimiter) && ClusterSpEntityId(entityId).Ok?
            && ClusterSpEntityId(entityId).value !in ctx
            ==> r == Err(Runtime("NullPointerException"))
  {
    if Text.Contains(entityId, Delimiter) then
      match ClusterSpEntityId(entityId)
      case Err(e) => Err(e)
      case Ok(id) =>
        if id in ctx then Ok((id, ctx[id].ext)) else Err(Runtime("NullPointerException"))
    else Ok((entityId, ext))
  }
}
