/**
 * `WebBrowserSSOAuthConsumerService`: the engine's assertion consumer. This
 * models its decisions: whether a response is unsolicited, how the relay
 * state leads back to the Guard's metadata and session, the query-string
 * parser, the check of the session id the Guard answers with, and the
 * friendly-name test on attributes.
 */
module AuthConsumer {
  import opened Wrappers
  import Text
  import opened Saml

  /**
   * `checkForUnsolicited`: a relay state that is not an engine or Guard
   * session id. Neither session renaming changes such a relay state.
   */
  predicate IsUnsolicited(relayState: Option<string>)
    ensures IsUnsolicited(relayState) ==>
              relayState.Some? && EngineSession(relayState.value) == relayState.value
              && GuardSession(relayState.value) == relayState.value
  {
    relayState.Some? && !Text.Contains(relayState.value, "GUARD") && !Text.Contains(relayState.value, "ENGINE")
  }

  /** The messages written to the browser when `acs` gives up. */
  const NotValidUnsolicited := "Not a valid unsolitied session"
  const NotValidSession := "Not a valid session"

  /**
   * How `acs` starts: rejected with a message, failed with an exception, or
   * going on with the Guard's metadata (`None` when the context has none),
   * the Guard session id and the mode.
   */
  datatype Start = Rejected(message: string) | Failed(failure: Failure)
                 | Proceed(guard: Option<Guard>, guardSession: string, unsolicited: bool)

  /**
   * The opening of `acs`. `unsolicitedGuard` is `getUnsolicitedGuard`, which
   * the clustered consumer overrides.
   */
  function AcsStart(allowUnsolicited: bool, relayState: Option<string>, ctx: Context,
                    unsolicitedGuard: string -> Result<Option<Guard>, Failure>): (r: Start)
    ensures allowUnsolicited && IsUnsolicited(relayState) && !Text.HasText(relayState.value) ==>
              r == Rejected(NotValidUnsolicited)
    ensures (allowUnsolicited && IsUnsolicited(relayState) && Text.HasText(relayState.value)
             && unsolicitedGuard(relayState.value).Ok?) ==>
              r == Proceed(unsolicitedGuard(relayState.value).value, relayState.value, true)
    ensures (!(allowUnsolicited && IsUnsolicited(relayState)) && relayState.Some? && Text.HasText(relayState.value)
             && EngineSession(relayState.value) !in ctx) ==> r == Rejected(NotValidSession)
    ensures r.Proceed? && !r.unsolicited ==>
              relayState.Some? && r.guardSession == GuardSession(relayState.value)
              && r.guard == Get(ctx, EngineSession(relayState.value))
    ensures !(allowUnsolicited && IsUnsolicited(relayState)) && relayState.None? ==>
              r == Failed(Runtime("NullPointerException"))
    ensures (allowUnsolicited && IsUnsolicited(relayState) && Text.HasText(relayState.value)
             && unsolicitedGuard(relayState.value).Err?) ==>
              r == Failed(unsolicitedGuard(relayState.value).error)
    ensures (!(allowUnsolicited && IsUnsolicited(relayState)) && relayState.Some?
             && !(Text.HasText(relayState.value) && EngineSession(relayState.value) !in ctx)) ==>
              r == Proceed(Get(ctx, EngineSession(relayState.value)), GuardSession(relayState.value), false)
  {
    if allowUnsolicited && IsUnsolicited(relayState) then
      if !Text.HasText(relayState.value) then Rejected(NotValidUnsolicited)
      else match unsolicitedGuard(relayState.value)
        case Err(e) => Failed(e)
        case Ok(g) => Proceed(g, relayState.value, true)
    else if relayState.Some? && Text.HasText(relayState.value) && EngineSession(relayState.value) !in ctx then
      Rejected(NotValidSession)
    else if relayState.None? then Failed(Runtime("NullPointerException"))
    else Proceed(Get(ctx, EngineSession(relayState.value)), GuardSession(relayState.value), false)
  }

  /** The fields of a query parameter: Java `split("=")`. */
  function Fields(param: string): seq<string> {
    Text.JavaSplit(param, "=")
  }

  /** Java `split("&")` of a query string. */
  function Params(query: string): seq<string> {
    Text.JavaSplit(query, "&")
  }

  /** Every parameter among the first `n` has a name and a value. */
  predicate Wellformed(params: seq<string>, n: nat)
    requires n <= |params|
  {
    forall k :: 0 <= k < n ==> |Fields(params[k])| >= 2
  }

  /** The (name, value) pairs of the first `n` parameters. */
  function Pairs(params: seq<string>, n: nat): (r: seq<(string, string)>)
    requires n <= |params| && Wellformed(params, n)
    ensures |r| == n
  {
    seq(n, k requires 0 <= k < n => (Fields(params[k])[0], Fields(params[k])[1]))
  }

  lemma PairsSnoc(params: seq<string>, n: nat)
    requires 0 < n <= |params| && Wellformed(params, n)
    ensures Wellformed(params, n - 1)
    ensures var f := Fields(params[n - 1]); Pairs(params, n) == Pairs(params, n - 1) + [(f[0], f[1])]
  {
    var f := Fields(params[n - 1]);
    var a, b := Pairs(params, n), Pairs(params, n - 1);
    forall k | 0 <= k < n ensures a[k] == (b + [(f[0], f[1])])[k] {
      if k < n - 1 {
        assert a[k] == b[k];
      }
    }
  }

  /**
   * `m` is the map of `pairs`: each of their names is a key, and each key
   * holds the value of the last pair with that name.
   */
  predicate LastWins(pairs: seq<(string, string)>, m: map<string, string>) {
    (forall k :: 0 <= k < |pairs| ==> pairs[k].0 in m)
    && forall name :: name in m ==>
         exists k :: 0 <= k < |pairs| && pairs[k] == (name, m[name])
                     && forall j :: k < j < |pairs| ==> pairs[j].0 != name
  }

  /** Adding a pair to the map of the ones before it. */
  lemma LastWinsStep(pairs: seq<(string, string)>, p: (string, string), m: map<string, string>)
    requires LastWins(pairs, m)
    ensures LastWins(pairs + [p], m[p.0 := p.1])
  {
    var ps := pairs + [p];
    var m' := m[p.0 := p.1];
    forall name | name in m'
      ensures exists k :: 0 <= k < |ps| && ps[k] == (name, m'[name])
                          && forall j :: k < j < |ps| ==> ps[j].0 != name
    {
      if name == p.0 {
        assert ps[|pairs|] == (name, m'[name]);
      } else {
        var k :| 0 <= k < |pairs| && pairs[k] == (name, m[name])
                 && forall j :: k < j < |pairs| ==> pairs[j].0 != name;
        assert ps[k] == (name, m'[name]);
      }
    }
  }

  /**
   * The map built from the first `n` parameters: field 0 is the name, field 1
   * the value, a later name overwrites an earlier one, and a parameter with
   * fewer than two fields raises an index error.
   */
  function QueryFold(params: seq<string>, n: nat): (r: Result<map<string, string>, Failure>)
    requires n <= |params|
    ensures r.Ok? <==> Wellformed(params, n)
    ensures r.Ok? ==> LastWins(Pairs(params, n), r.value)
  {
    if n == 0 then Ok(map[])
    else
      match QueryFold(params, n - 1)
      case Err(e) => Err(e)
      case Ok(m) =>
        var f := Fields(params[n - 1]);
        if |f| < 2 then Err(Runtime("ArrayIndexOutOfBoundsException"))
        else
          PairsSnoc(params, n);
          LastWinsStep(Pairs(params, n - 1), (f[0], f[1]), m);
          Ok(m[f[0] := f[1]])
  }

  /** `getQueryMap`: no query gives the empty map. */
  function QueryMap(query: Option<string>): (r: Result<map<string, string>, Failure>)
    ensures query.None? ==> r == Ok(map[])
    ensures query.Some? ==> r == QueryFold(Params(query.value), |Params(query.value)|)
  {
    match query
    case None => Ok(map[])
    case Some(q) => QueryFold(Params(q), |Params(q)|)
  }

  /** `getUnsolicitedGuard`: the Guard named by the relay state's `sp` query parameter. */
  function UnsolicitedGuard(query: Option<string>, ctx: Context): (r: Result<Option<Guard>, Failure>)
    ensures QueryMap(query).Err? <==> r.Err?
    ensures r.Ok? ==> (r.value.Some? <==> "sp" in QueryMap(query).value && QueryMap(query).value["sp"] in ctx)
    ensures r.Ok? && r.value.Some? ==> r.value.value == ctx[QueryMap(query).value["sp"]]
  {
    match QueryMap(query)
    case Err(e) => Err(e)
    case Ok(m) => Ok(if "sp" in m then Get(ctx, m["sp"]) else None)
  }

  /** `processGuardConnection`'s check: outside unsolicited mode the Guard must echo the session id. */
  function CheckGuardSession(unsolicited: bool, returned: string, guardSession: string): (r: Result<string, Failure>)
    ensures r.Ok? <==> unsolicited || returned == guardSession
    ensures r.Ok? ==> r.value == returned
  {
    if !unsolicited && returned != guardSession then
      Err(Guanxi("Guards session id does not match working session id"))
    else Ok(returned)
  }

  /** `attributeHasFriendlyName`. */
  function HasFriendlyName(friendlyName: Option<string>): (r: bool)
    ensures r <==> friendlyName.Some? && friendlyName.value != ""
  {
    friendlyName.Some? && |friendlyName.value| > 0
  }

  lemma NoEquals(s: string)
    requires forall k :: 0 <= k < |s| ==> s[k] != '='
    ensures !Text.Contains(s, "=")
  {
    forall i | 0 <= i <= |s| - 1 ensures !Text.OccursAt(s, "=", i) {
      assert s[i..i + 1][0] == s[i];
    }
  }

  /** A parameter `name=value=rest` has the value `value`: fields after the second are ignored. */
  lemma ExtraFieldsIgnored(name: string, value: string, rest: string)
    requires forall k :: 0 <= k < |name| ==> name[k] != '='
    requires forall k :: 0 <= k < |value| ==> value[k] != '='
    requires forall k :: 0 <= k < |rest| ==> rest[k] != '='
    requires rest != ""
    ensures var f := Fields(name + "=" + value + "=" + rest);
      |f| == 3 && f[0] == name && f[1] == value
  {
    var parts := [name, value, rest];
    NoEquals(name);
    NoEquals(value);
    NoEquals(rest);
    Text.JoinCons(name, [value, rest], "=");
    Text.JoinCons(value, [rest], "=");
    assert Text.Join(parts, "=") == name + "=" + value + "=" + rest;
    Text.SplitJoin(parts, "=");
    assert Text.OccursAt(name + "=" + value + "=" + rest, "=", |name|);
  }

  /** A parameter with nothing after `=` has a single field, so `getQueryMap` fails on it. */
  lemma EmptyValueFails(name: string)
    requires forall k :: 0 <= k < |name| ==> name[k] != '=' && name[k] != '&'
    ensures QueryMap(Some(name + "=")).Err?
  {
    var p := name + "=";
    NoEquals(name);
    Text.JoinCons(name, [""], "=");
    Text.SplitJoin([name, ""], "=");
    assert Text.OccursAt(p, "=", |name|);
    assert |Fields(p)| < 2;
    assert Params(p) == [p];
  }

  /**
   * The engine and Guard session names are not inverse: a Guard session id
   * that already contains "ENGINE" does not come back unchanged.
   */
  lemma SessionMungingNotInverse()
    ensures GuardSession(EngineSession("ENGINE")) == "GUARD"
  {
    assert "ENGINE"[0..5][0] != "GUARD"[0] && "ENGINE"[1..6][0] != "GUARD"[0];
    assert !Text.Contains("ENGINE", "GUARD");
    assert EngineSession("ENGINE") == "ENGINE";
    assert Text.OccursAt("ENGINE", "ENGINE", 0);
    assert Text.ReplaceAll("", "ENGINE", "GUARD") == "";
  }
}
