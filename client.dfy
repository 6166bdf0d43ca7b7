/** `PortainerClient`: its stored base URL, its JWT token, and the rule by
    which it picks the endpoint (environment) that commands act on. The HTTP
    calls themselves are replaced by the values they would return. */
module Client {
  import opened Wrappers
  import opened Search

  // ---------------------------------------------------------------------
  // Base URL normalisation: `base_url.rstrip('/')`
  // ---------------------------------------------------------------------

  /** `k` slash characters. */
  function Slashes(k: nat): (r: string)
    ensures |r| == k && forall i :: 0 <= i < k ==> r[i] == '/'
  {
    seq(k, _ => '/')
  }

  /** `s` with every trailing '/' removed. */
  function StripTrailingSlashes(s: string): (r: string)
    ensures |r| <= |s| && r == s[..|r|]
    ensures r == [] || r[|r| - 1] != '/'
    ensures forall i :: |r| <= i < |s| ==> s[i] == '/'
  {
    if |s| > 0 && s[|s| - 1] == '/' then StripTrailingSlashes(s[..|s| - 1]) else s
  }

  /** StripTrailingSlashes is the only way to split `s` into a prefix that does
      not end in '/' and a tail made of slashes only. */
  lemma StripTrailingSlashesUnique(s: string, t: string)
    requires |t| <= |s| && t == s[..|t|]
    requires t == [] || t[|t| - 1] != '/'
    requires forall i :: |t| <= i < |s| ==> s[i] == '/'
    ensures t == StripTrailingSlashes(s)
  {
    var r := StripTrailingSlashes(s);
    // The last kept character of each split is not a slash, so neither
    // split can keep fewer characters than the other.
    if |r| > 0 { assert s[|r| - 1] == r[|r| - 1] != '/'; }
    if |t| > 0 { assert s[|t| - 1] == t[|t| - 1] != '/'; }
    assert |r| == |t|;
  }

  /** Configuring the URL with or without trailing slashes stores the same
      base URL, and stripping twice changes nothing. */
  lemma StripIgnoresTrailingSlashes(s: string, k: nat)
    ensures StripTrailingSlashes(s + Slashes(k)) == StripTrailingSlashes(s)
    ensures StripTrailingSlashes(StripTrailingSlashes(s)) == StripTrailingSlashes(s)
  {
    var r := StripTrailingSlashes(s);
    var u := s + Slashes(k);
    assert u[..|r|] == r;
    StripTrailingSlashesUnique(u, r);
    StripTrailingSlashesUnique(r, r);
  }

  /** A base URL as the client stores it: empty or not ending in '/'. */
  predicate NoTrailingSlash(s: string) {
    s == [] || s[|s| - 1] != '/'
  }

  /** Request URL for an API route, as every HTTP call of the client builds it:
      the stored base URL followed by "/api/" and the route. */
  function ApiUrl(baseUrl: string, route: string): (url: string)
    ensures |url| == |baseUrl| + 5 + |route|
    ensures url[..|baseUrl|] == baseUrl && url[|baseUrl|..] == "/api/" + route
  {
    baseUrl + "/api/" + route
  }

  /** For a base URL kept by a valid client, the joint between base URL and
      route never holds two slashes, whatever trailing slashes the user typed. */
  lemma ApiUrlHasSingleSlashAtJoin(base: string, route: string)
    requires NoTrailingSlash(base)
    ensures |base| > 0 ==> ApiUrl(base, route)[|base| - 1] != '/' && ApiUrl(base, route)[|base|] == '/'
  {
    var url := ApiUrl(base, route);
    if |base| > 0 {
      assert url[|base| - 1] == url[..|base|][|base| - 1];
      assert url[|base|] == url[|base|..][0];
    }
  }

  // ---------------------------------------------------------------------
  // The client object
  // ---------------------------------------------------------------------

  /** Outcome of the POST to /api/auth: a request error (network, HTTP status
      or undecodable body), or a decoded JSON body with or without 'jwt'. */
  datatype AuthReply = RequestFailed | Accepted(jwt: Option<string>)

  class PortainerClient {
    var baseUrl: string
    var verifySsl: bool
    var token: Option<string>

    /** The stored base URL never ends in '/'. */
    predicate Valid()
      reads this
    {
      NoTrailingSlash(baseUrl)
    }

    constructor (baseUrl: string, verifySsl: bool)
      ensures Valid()
      ensures this.baseUrl == StripTrailingSlashes(baseUrl)
      ensures this.verifySsl == verifySsl && token == None
    {
      this.baseUrl := StripTrailingSlashes(baseUrl);
      this.verifySsl := verifySsl;
      this.token := None;
    }

    /** Stores the token of a decoded reply (None when the body has no 'jwt',
        and the call still reports success); a failed request leaves the
        token as it was and reports failure. */
    method Authenticate(reply: AuthReply) returns (ok: bool)
      requires Valid()
      modifies this`token
      ensures Valid()
      ensures ok <==> reply.Accepted?
      ensures ok ==> token == reply.jwt
      ensures !ok ==> token == old(token)
    {
      match reply
      case RequestFailed =>
        ok := false;
      case Accepted(jwt) =>
        token := jwt;
        ok := true;
    }
  }

  // ---------------------------------------------------------------------
  // Endpoint selection: `get_endpoint_id`
  // ---------------------------------------------------------------------

  /** An entry of GET /api/endpoints: 'Id' and 'Name' are always read with
      `ep[...]`, 'Type' with `ep.get(...)` and so may be absent. */
  datatype Endpoint = Endpoint(id: int, name: string, endpointType: Option<int>)

  /** The two `ValueError`s that `get_endpoint_id` raises. */
  datatype SelectError = EndpointNotFound(name: string) | NoValidEndpoint

  /** Python truthiness of the optional `--endpoint` argument. */
  predicate IsGiven(endpointName: Option<string>) {
    endpointName.Some? && endpointName.value != ""
  }

  /** Type 1 is a Docker endpoint, Type 2 a Swarm endpoint. */
  predicate IsDockerOrSwarm(ep: Endpoint) {
    ep.endpointType == Some(1) || ep.endpointType == Some(2)
  }

  function NameIs(name: string): Endpoint -> bool {
    (ep: Endpoint) => ep.name == name
  }

  /** The Id of the first endpoint with the given name when a name is given,
      else the Id of the first Docker or Swarm endpoint. */
  function SelectEndpoint(endpoints: seq<Endpoint>, endpointName: Option<string>): (r: Result<int, SelectError>)
    ensures IsGiven(endpointName) ==>
      (r.Success? <==> exists i :: 0 <= i < |endpoints| && endpoints[i].name == endpointName.value)
    ensures IsGiven(endpointName) && r.Success? ==>
      exists i :: IsFirstMatch(endpoints, NameIs(endpointName.value), i) && r.value == endpoints[i].id
    ensures IsGiven(endpointName) && r.Failure? ==> r.error == EndpointNotFound(endpointName.value)
    ensures !IsGiven(endpointName) ==>
      (r.Success? <==> exists i :: 0 <= i < |endpoints| && IsDockerOrSwarm(endpoints[i]))
    ensures !IsGiven(endpointName) && r.Success? ==>
      exists i :: IsFirstMatch(endpoints, IsDockerOrSwarm, i) && r.value == endpoints[i].id
    ensures !IsGiven(endpointName) && r.Failure? ==> r.error == NoValidEndpoint
  {
    if IsGiven(endpointName) then
      match FirstMatch(endpoints, NameIs(endpointName.value))
      case Some(i) => Success(endpoints[i].id)
      case None => Failure(EndpointNotFound(endpointName.value))
    else
      match FirstMatch(endpoints, IsDockerOrSwarm)
      case Some(i) => Success(endpoints[i].id)
      case None => Failure(NoValidEndpoint)
  }

  /** A name that matches no endpoint fails even when Docker or Swarm
      endpoints exist: there is no fallback to selection by type. */
  lemma NamedSelectionHasNoFallback(endpoints: seq<Endpoint>, name: string)
    requires name != ""
    requires forall i :: 0 <= i < |endpoints| ==> endpoints[i].name != name
    ensures SelectEndpoint(endpoints, Some(name)) == Failure(EndpointNotFound(name))
  {
  }

  /** An absent and an empty endpoint name select alike. */
  lemma EmptyNameMeansNoName(endpoints: seq<Endpoint>)
    ensures SelectEndpoint(endpoints, Some("")) == SelectEndpoint(endpoints, None)
  {
  }

  /** `get_swarm_id`: the 'ID' of the swarm inspect reply, or "" when absent. */
  function SwarmId(replyId: Option<string>): (id: string)
    ensures replyId.None? ==> id == ""
    ensures replyId.Some? ==> id == replyId.value
  {
    replyId.GetOr("")
  }
}
