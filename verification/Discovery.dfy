/**
 * Discovery of an MCP server's metadata (mcp.py), with a trace of the URLs validated and
 * requested. The network, the caller's URL policy and the URL library are parameters.
 */
module Discovery {
  import opened Wrappers
  import opened Json
  import opened HostLiterals
  import opened McpConfig
  import opened ProviderConfigs

  datatype UrlParts = UrlParts(scheme: string, netloc: string, hostname: string, path: string)

  /**
   * The surroundings of a run. The caller's policy and the servers may answer differently each
   * time, so their answers depend on how many steps the run has taken.
   */
  datatype Net = Net(
    parse: string -> Option<UrlParts>,
    join: (string, string) -> string,
    v6: string -> Option<nat>,
    nonPublic: Address -> bool,
    accepts: (nat, string) -> bool,
    reply: (nat, string) -> Outcome)

  datatype Event = Validated(url: string, accepted: bool) | Requested(url: string)

  datatype DiscoveryError = Rejected(url: string) | NotFetched | NoAuthorizationServer | MissingEndpoint

  const WELL_KNOWN_PRM := "/.well-known/oauth-protected-resource"
  const WELL_KNOWN_ASM := "/.well-known/oauth-authorization-server"
  const WELL_KNOWN_OIDC := "/.well-known/openid-configuration"

  /** HTTPS, and no host that is known not to be public. */
  predicate MeetsBaseline(net: Net, url: string)
  {
    match net.parse(url)
    case None => false
    case Some(parts) => parts.scheme == "https" && !IsBlockedHost(parts.hostname, net.v6, net.nonPublic)
  }

  /** `_validate_url`: the baseline first, the caller's policy only on what passes it. */
  predicate IsAccepted(net: Net, url: string, trace: seq<Event>)
  {
    MeetsBaseline(net, url) && net.accepts(|trace|, url)
  }

  function Validate(net: Net, url: string, trace: seq<Event>): seq<Event>
  {
    trace + [Validated(url, IsAccepted(net, url, trace))]
  }

  /** The document a reply yields, if it is one: status 200 and a JSON object. */
  function Document(outcome: Outcome): Option<Fields>
  {
    match outcome
    case Reply(status, Some(Object(fields))) => if status == 200 then Some(fields) else None
    case _ => None
  }

  /** The specification of `_fetch_first_metadata`. */
  function Fetch(net: Net, urls: seq<string>, trace: seq<Event>): (seq<Event>, Result<Fields, DiscoveryError>)
  {
    if urls == [] then (trace, Err(NotFetched))
    else
      var validated := Validate(net, urls[0], trace);
      if !IsAccepted(net, urls[0], trace) then (validated, Err(Rejected(urls[0])))
      else
        var requested := validated + [Requested(urls[0])];
        match Document(net.reply(|validated|, urls[0]))
        case Some(fields) => (requested, Ok(fields))
        case None => Fetch(net, urls[1..], requested)
  }

  /** Fetches the first candidate that yields a JSON object. */
  method FetchFirstMetadata(net: Net, urls: seq<string>, before: seq<Event>)
    returns (trace: seq<Event>, r: Result<Fields, DiscoveryError>)
    ensures (trace, r) == Fetch(net, urls, before)
  {
    trace := before;
    for i := 0 to |urls|
      invariant Fetch(net, urls, before) == Fetch(net, urls[i..], trace)
    {
      var url := urls[i];
      assert urls[i..][1..] == urls[i + 1..];
      var accepted := IsAccepted(net, url, trace);
      trace := trace + [Validated(url, accepted)];
      if !accepted {
        return trace, Err(Rejected(url));
      }
      var outcome := net.reply(|trace|, url);
      trace := trace + [Requested(url)];
      match outcome {
        case TransportError =>
        case Reply(status, body) =>
          if status == 200 && body.Some? && body.value.Object? {
            return trace, Ok(body.value.fields);
          }
      }
    }
    r := Err(NotFetched);
  }

  function PrmCandidates(net: Net, hint: Option<string>, server: UrlParts): seq<string>
  {
    var base := server.scheme + "://" + server.netloc;
    (if hint.Some? && hint.value != "" then [hint.value] else [])
    + (if server.path != "" && server.path != "/" then [net.join(base, WELL_KNOWN_PRM + server.path)] else [])
    + [net.join(base, WELL_KNOWN_PRM)]
  }

  /** The well-known locations of the protected resource's metadata, the caller's hint before them. */
  method PrmCandidateUrls(net: Net, hint: Option<string>, server: UrlParts) returns (urls: seq<string>)
    ensures urls == PrmCandidates(net, hint, server)
  {
    urls := [];
    if hint.Some? && hint.value != "" {
      urls := urls + [hint.value];
    }
    var base := server.scheme + "://" + server.netloc;
    if server.path != "" && server.path != "/" {
      urls := urls + [net.join(base, WELL_KNOWN_PRM + server.path)];
    }
    urls := urls + [net.join(base, WELL_KNOWN_PRM)];
  }

  /**
   * The root location is always tried, and last; a hint is tried exactly when it is not empty,
   * and first; the location for the path is tried, between them, exactly when there is a path.
   */
  lemma PrmCandidatesExactly(net: Net, hint: Option<string>, server: UrlParts)
    ensures var urls := PrmCandidates(net, hint, server);
            var base := server.scheme + "://" + server.netloc;
            var hinted := if hint.Some? && hint.value != "" then 1 else 0;
            var pathed := if server.path in {"", "/"} then 0 else 1;
            && |urls| == hinted + pathed + 1
            && urls[|urls| - 1] == net.join(base, WELL_KNOWN_PRM)
            && (hinted == 1 ==> urls[0] == hint.value)
            && (pathed == 1 ==> urls[hinted] == net.join(base, WELL_KNOWN_PRM + server.path))
  {
  }

  /** `path.rstrip("/")`. */
  function StripSlashes(path: string): (stripped: string)
    ensures stripped <= path && (stripped != "" ==> stripped[|stripped| - 1] != '/')
    ensures forall i :: |stripped| <= i < |path| ==> path[i] == '/'
  {
    if path != "" && path[|path| - 1] == '/' then StripSlashes(path[..|path| - 1]) else path
  }

  function AsmCandidates(net: Net, server: UrlParts): seq<string>
  {
    var base := server.scheme + "://" + server.netloc;
    var path := StripSlashes(server.path);
    if path != "" then
      [net.join(base, WELL_KNOWN_ASM + path),
       net.join(base, WELL_KNOWN_OIDC + path),
       net.join(base, path + WELL_KNOWN_OIDC)]
    else [net.join(base, WELL_KNOWN_ASM), net.join(base, WELL_KNOWN_OIDC)]
  }

  lemma WithEmpty(s: string)
    ensures s + "" == s && "" + s == s
  {
  }

  /**
   * The RFC 8414 location comes first, then the OpenID location with the path behind its well-known
   * part, then, where there is a path, the one with the path before it. Slashes at the end of the
   * path make no difference.
   */
  lemma AsmCandidatesPreferRfc8414(net: Net, server: UrlParts)
    ensures var base := server.scheme + "://" + server.netloc;
            var path := StripSlashes(server.path);
            var urls := AsmCandidates(net, server);
            && |urls| == (if path == "" then 2 else 3)
            && urls[0] == net.join(base, WELL_KNOWN_ASM + path)
            && urls[1] == net.join(base, WELL_KNOWN_OIDC + path)
            && (path != "" ==> urls[2] == net.join(base, path + WELL_KNOWN_OIDC))
            && AsmCandidates(net, server.(path := server.path + "/")) == urls
  {
    assert (server.path + "/")[..|server.path|] == server.path;
    WithEmpty(WELL_KNOWN_ASM);
    WithEmpty(WELL_KNOWN_OIDC);
  }

  /** The first nonempty string of a list. */
  function FirstNonEmpty(items: seq<Value>): Option<string>
  {
    if items == [] then None
    else if items[0].Text? && items[0].s != "" then Some(items[0].s)
    else FirstNonEmpty(items[1..])
  }

  function AuthorizationServer(resource: Fields): Option<string>
  {
    match Field(resource, "authorization_servers")
    case Some(Array(items)) => FirstNonEmpty(items)
    case _ => None
  }

  /** Place `i` holds the first item that is a text and not empty. */
  ghost predicate IsFirstNonEmpty(items: seq<Value>, i: int, url: string)
  {
    && 0 <= i < |items| && items[i] == Text(url) && url != ""
    && forall j :: 0 <= j < i && items[j].Text? ==> items[j].s == ""
  }

  lemma {:induction false} FirstNonEmptyExactly(items: seq<Value>, url: string)
    ensures FirstNonEmpty(items) == Some(url) <==> exists i :: IsFirstNonEmpty(items, i, url)
  {
    if items != [] {
      FirstNonEmptyExactly(items[1..], url);
      if items[0].Text? && items[0].s != "" {
        assert items[0].s == url ==> IsFirstNonEmpty(items, 0, url);
      } else {
        if i :| IsFirstNonEmpty(items[1..], i, url) {
          assert forall j :: 0 < j < i + 1 ==> items[j] == items[1..][j - 1];
          assert IsFirstNonEmpty(items, i + 1, url);
        }
        if i :| IsFirstNonEmpty(items, i, url) {
          assert forall j :: 0 <= j < |items| - 1 ==> items[1..][j] == items[j + 1];
          assert IsFirstNonEmpty(items[1..], i - 1, url);
        }
      }
    }
  }

  /** The authorization server is the first nonempty text of the list the resource declares. */
  lemma AuthorizationServerExactly(resource: Fields, url: string)
    ensures AuthorizationServer(resource) == Some(url)
            <==> exists items, i :: Field(resource, "authorization_servers") == Some(Array(items))
                                    && IsFirstNonEmpty(items, i, url)
  {
    match Field(resource, "authorization_servers")
    case Some(Array(items)) => FirstNonEmptyExactly(items, url);
    case _ =>
  }

  /** Only a JSON object that comes with status 200 is a document. */
  lemma DocumentExactly(outcome: Outcome, fields: Fields)
    ensures Document(outcome) == Some(fields) <==> outcome == Reply(200, Some(Object(fields)))
  {
  }

  /** Which URLs are accepted: HTTPS, a public host, and the caller's policy. */
  lemma AcceptedExactly(net: Net, url: string, trace: seq<Event>)
    requires NeedsColon(net.v6)
    ensures IsAccepted(net, url, trace)
            <==> exists parts :: net.parse(url) == Some(parts) && parts.scheme == "https"
                                 && IsPublic(parts.hostname, net.v6, net.nonPublic) && net.accepts(|trace|, url)
  {
    if net.parse(url).Some? {
      BlockedExactly(net.parse(url).value.hostname, net.v6, net.nonPublic);
    }
  }

  /** Validates URLs one after the other, stopping at the first that is refused. */
  function ValidateAll(net: Net, urls: seq<string>, trace: seq<Event>): (seq<Event>, Option<DiscoveryError>)
  {
    if urls == [] then (trace, None)
    else if !IsAccepted(net, urls[0], trace) then (Validate(net, urls[0], trace), Some(Rejected(urls[0])))
    else ValidateAll(net, urls[1..], Validate(net, urls[0], trace))
  }

  function IsTrue(value: Option<Value>): bool
  {
    value == Some(Bool(true))
  }

  function Present(url: Option<string>): seq<string>
  {
    if url.Some? then [url.value] else []
  }

  /** The endpoints a server's metadata declares: two required, two optional. */
  function Endpoints(server: Fields): seq<string>
    requires TextField(server, "authorization_endpoint").Some? && TextField(server, "token_endpoint").Some?
  {
    [TextField(server, "authorization_endpoint").value, TextField(server, "token_endpoint").value]
    + Present(TextField(server, "registration_endpoint")) + Present(TextField(server, "revocation_endpoint"))
  }

  function MetadataOf(server: Fields, resource: Fields): ServerMetadata
    requires TextField(server, "authorization_endpoint").Some? && TextField(server, "token_endpoint").Some?
  {
    ServerMetadata(
      TextField(server, "authorization_endpoint").value,
      TextField(server, "token_endpoint").value,
      TextField(server, "registration_endpoint"),
      TextField(server, "revocation_endpoint"),
      StrList(Field(server, "scopes_supported")),
      StrList(Field(server, "code_challenge_methods_supported")),
      StrList(Field(server, "token_endpoint_auth_methods_supported")),
      TextField(server, "issuer"),
      IsTrue(Field(server, "authorization_response_iss_parameter_supported")),
      IsTrue(Field(server, "client_id_metadata_document_supported")),
      TextField(resource, "resource"))
  }

  /** The list declared under a name holds the text. */
  ghost predicate Lists(fields: Fields, name: string, text: string)
  {
    exists items :: Field(fields, name) == Some(Array(items)) && Text(text) in items
  }

  /** An optional text is the one declared under the name, and absent when none is. */
  ghost predicate IsDeclared(text: Option<string>, fields: Fields, name: string)
  {
    forall s :: text == Some(s) <==> Field(fields, name) == Some(Text(s))
  }

  /** The metadata is what the two documents declare, each value under its own name. */
  lemma MetadataIsDeclared(server: Fields, resource: Fields)
    requires TextField(server, "authorization_endpoint").Some? && TextField(server, "token_endpoint").Some?
    ensures var metadata := MetadataOf(server, resource);
            && Field(server, "authorization_endpoint") == Some(Text(metadata.authorizeUrl))
            && Field(server, "token_endpoint") == Some(Text(metadata.tokenUrl))
            && IsDeclared(metadata.registrationUrl, server, "registration_endpoint")
            && IsDeclared(metadata.revocationUrl, server, "revocation_endpoint")
            && IsDeclared(metadata.issuer, server, "issuer") && IsDeclared(metadata.resource, resource, "resource")
            && (metadata.issParameterSupported
                <==> Field(server, "authorization_response_iss_parameter_supported") == Some(Bool(true)))
            && (metadata.supportsCimd
                <==> Field(server, "client_id_metadata_document_supported") == Some(Bool(true)))
    ensures var metadata := MetadataOf(server, resource);
            forall s ::
              && (s in metadata.scopesSupported <==> Lists(server, "scopes_supported", s))
              && (s in metadata.codeChallengeMethods <==> Lists(server, "code_challenge_methods_supported", s))
              && (s in metadata.tokenEndpointAuthMethods <==> Lists(server, "token_endpoint_auth_methods_supported", s))
  {
    forall s, name ensures s in StrList(Field(server, name)) <==> Lists(server, name, s) {
      match Field(server, name)
      case Some(Array(items)) => InStrings(items, s);
      case _ =>
    }
  }

  type Run = (seq<Event>, Result<ServerMetadata, DiscoveryError>)

  /** Once the authorization server's metadata is there: check its endpoints and read it. */
  function Conclude(net: Net, server: Fields, resource: Fields, trace: seq<Event>): Run
  {
    if TextField(server, "authorization_endpoint").None? || TextField(server, "token_endpoint").None? then
      (trace, Err(MissingEndpoint))
    else
      var (checked, error) := ValidateAll(net, Endpoints(server), trace);
      if error.Some? then (checked, Err(error.value)) else (checked, Ok(MetadataOf(server, resource)))
  }

  /** Once the resource's metadata is there: find its authorization server and fetch that one's metadata. */
  function ViaServer(net: Net, resource: Fields, trace: seq<Event>): Run
  {
    match AuthorizationServer(resource)
    case None => (trace, Err(NoAuthorizationServer))
    case Some(url) =>
      var validated := Validate(net, url, trace);
      if !IsAccepted(net, url, trace) then (validated, Err(Rejected(url)))
      else
        var (fetched, server) := Fetch(net, AsmCandidates(net, net.parse(url).value), validated);
        match server
        case Err(error) => (fetched, Err(error))
        case Ok(fields) => Conclude(net, fields, resource, fetched)
  }

  /** `discover`. */
  function Discover(net: Net, serverUrl: string, hint: Option<string>): Run
  {
    var validated := Validate(net, serverUrl, []);
    if !IsAccepted(net, serverUrl, []) then (validated, Err(Rejected(serverUrl)))
    else
      var (fetched, resource) := Fetch(net, PrmCandidates(net, hint, net.parse(serverUrl).value), validated);
      match resource
      case Err(error) => (fetched, Err(error))
      case Ok(fields) => ViaServer(net, fields, fetched)
  }

  // -----  What every run keeps  -----

  /**
   * A request directly follows the acceptance of its own URL, and a URL is accepted exactly if it
   * meets the baseline and the caller's policy accepts it at that moment.
   */
  ghost predicate EventOk(net: Net, trace: seq<Event>, i: nat)
    requires i < |trace|
  {
    match trace[i]
    case Requested(url) => i > 0 && trace[i - 1] == Validated(url, true)
    case Validated(url, accepted) => accepted == (MeetsBaseline(net, url) && net.accepts(i, url))
  }

  ghost predicate Disciplined(net: Net, trace: seq<Event>)
  {
    forall i :: 0 <= i < |trace| ==> EventOk(net, trace, i)
  }

  lemma OneMoreEvent(net: Net, trace: seq<Event>, event: Event)
    requires Disciplined(net, trace) && EventOk(net, trace + [event], |trace|)
    ensures Disciplined(net, trace + [event])
  {
    forall i | 0 <= i < |trace| ensures EventOk(net, trace + [event], i) {
      assert EventOk(net, trace, i);
    }
  }

  /** No URL was refused. */
  ghost predicate NoneRefused(trace: seq<Event>)
  {
    forall i :: 0 <= i < |trace| && trace[i].Validated? ==> trace[i].accepted
  }

  /** The last thing that happened was the refusal of the URL. */
  ghost predicate EndsRefused(trace: seq<Event>, url: string)
  {
    trace != [] && trace[|trace| - 1] == Validated(url, false) && NoneRefused(trace[..|trace| - 1])
  }

  /** A stage of a run: it goes on from a clean trace, and a refusal ends it. */
  ghost predicate StageOk<T>(net: Net, before: seq<Event>, after: seq<Event>, r: Result<T, DiscoveryError>)
  {
    && before <= after && Disciplined(net, after)
    && if r.Err? && r.error.Rejected? then EndsRefused(after, r.error.url) else NoneRefused(after)
  }

  lemma ValidateKeeps(net: Net, url: string, trace: seq<Event>)
    requires Disciplined(net, trace) && NoneRefused(trace)
    ensures Disciplined(net, Validate(net, url, trace)) && trace <= Validate(net, url, trace)
    ensures if IsAccepted(net, url, trace) then NoneRefused(Validate(net, url, trace))
            else EndsRefused(Validate(net, url, trace), url)
  {
    var validated := Validate(net, url, trace);
    assert validated[..|trace|] == trace;
    OneMoreEvent(net, trace, validated[|trace|]);
  }

  lemma {:induction false} FetchKeeps(net: Net, urls: seq<string>, trace: seq<Event>)
    requires Disciplined(net, trace) && NoneRefused(trace)
    ensures StageOk(net, trace, Fetch(net, urls, trace).0, Fetch(net, urls, trace).1)
    decreases |urls|
  {
    if urls != [] {
      ValidateKeeps(net, urls[0], trace);
      var validated := Validate(net, urls[0], trace);
      if IsAccepted(net, urls[0], trace) {
        var requested := validated + [Requested(urls[0])];
        OneMoreEvent(net, validated, Requested(urls[0]));
        assert NoneRefused(requested) && trace <= requested;
        if Document(net.reply(|validated|, urls[0])).None? {
          FetchKeeps(net, urls[1..], requested);
        }
      }
    }
  }

  lemma {:induction false} ValidateAllKeeps(net: Net, urls: seq<string>, trace: seq<Event>)
    requires Disciplined(net, trace) && NoneRefused(trace)
    ensures var (after, error) := ValidateAll(net, urls, trace);
            && StageOk<()>(net, trace, after, if error.Some? then Err(error.value) else Ok(()))
            && (error.None? ==> forall url :: url in urls ==> Validated(url, true) in after)
    decreases |urls|
  {
    if urls != [] {
      ValidateKeeps(net, urls[0], trace);
      if IsAccepted(net, urls[0], trace) {
        var validated := Validate(net, urls[0], trace);
        ValidateAllKeeps(net, urls[1..], validated);
        assert validated[|trace|] == Validated(urls[0], true);
        forall url | url in urls ensures url == urls[0] || url in urls[1..] {
        }
      }
    }
  }

  /** Each endpoint of the metadata passed validation during the run. */
  ghost predicate EndpointsValidated(metadata: ServerMetadata, trace: seq<Event>)
  {
    && Validated(metadata.authorizeUrl, true) in trace
    && Validated(metadata.tokenUrl, true) in trace
    && (metadata.registrationUrl.Some? ==> Validated(metadata.registrationUrl.value, true) in trace)
    && (metadata.revocationUrl.Some? ==> Validated(metadata.revocationUrl.value, true) in trace)
  }

  /** Validating the endpoints validates those of the metadata. */
  lemma EndpointsCover(server: Fields, resource: Fields, trace: seq<Event>)
    requires TextField(server, "authorization_endpoint").Some? && TextField(server, "token_endpoint").Some?
    requires forall url :: url in Endpoints(server) ==> Validated(url, true) in trace
    ensures EndpointsValidated(MetadataOf(server, resource), trace)
  {
    var required := [TextField(server, "authorization_endpoint").value, TextField(server, "token_endpoint").value];
    var registration := Present(TextField(server, "registration_endpoint"));
    var revocation := Present(TextField(server, "revocation_endpoint"));
    assert required[0] in required && required[1] in required;
    assert forall url :: url in required || url in registration || url in revocation ==> url in Endpoints(server);
  }

  lemma ConcludeKeeps(net: Net, server: Fields, resource: Fields, trace: seq<Event>)
    requires Disciplined(net, trace) && NoneRefused(trace)
    ensures var (after, r) := Conclude(net, server, resource, trace);
            && StageOk(net, trace, after, r)
            && (r.Ok? ==> EndpointsValidated(r.value, after))
  {
    if TextField(server, "authorization_endpoint").Some? && TextField(server, "token_endpoint").Some? {
      ValidateAllKeeps(net, Endpoints(server), trace);
      var (after, error) := ValidateAll(net, Endpoints(server), trace);
      if error.None? {
        EndpointsCover(server, resource, after);
      }
    }
  }

  lemma ViaServerKeeps(net: Net, resource: Fields, trace: seq<Event>)
    requires Disciplined(net, trace) && NoneRefused(trace)
    ensures var (after, r) := ViaServer(net, resource, trace);
            && StageOk(net, trace, after, r)
            && (r.Ok? ==> EndpointsValidated(r.value, after))
  {
    if AuthorizationServer(resource).Some? {
      var url := AuthorizationServer(resource).value;
      ValidateKeeps(net, url, trace);
      if IsAccepted(net, url, trace) {
        var validated := Validate(net, url, trace);
        var urls := AsmCandidates(net, net.parse(url).value);
        FetchKeeps(net, urls, validated);
        var (fetched, server) := Fetch(net, urls, validated);
        if server.Ok? {
          ConcludeKeeps(net, server.value, resource, fetched);
        }
      }
    }
  }

  /**
   * The discipline of every run: each request directly follows the acceptance of its own URL; a
   * refused URL ends the run with that refusal, and is never skipped; and the endpoints handed
   * out all passed validation.
   */
  lemma DiscoveryIsDisciplined(net: Net, serverUrl: string, hint: Option<string>)
    ensures var (trace, r) := Discover(net, serverUrl, hint);
            && Disciplined(net, trace)
            && (if r.Err? && r.error.Rejected? then EndsRefused(trace, r.error.url) else NoneRefused(trace))
            && (r.Ok? ==> EndpointsValidated(r.value, trace))
  {
    ValidateKeeps(net, serverUrl, []);
    if IsAccepted(net, serverUrl, []) {
      var validated := Validate(net, serverUrl, []);
      var urls := PrmCandidates(net, hint, net.parse(serverUrl).value);
      FetchKeeps(net, urls, validated);
      var (fetched, resource) := Fetch(net, urls, validated);
      if resource.Ok? {
        ViaServerKeeps(net, resource.value, fetched);
      }
    }
  }

  /** No request of any run goes to a URL that is not HTTPS or whose host is known not to be public. */
  lemma RequestsMeetBaseline(net: Net, serverUrl: string, hint: Option<string>, i: nat)
    requires i < |Discover(net, serverUrl, hint).0| && Discover(net, serverUrl, hint).0[i].Requested?
    ensures MeetsBaseline(net, Discover(net, serverUrl, hint).0[i].url)
  {
    DiscoveryIsDisciplined(net, serverUrl, hint);
    var trace := Discover(net, serverUrl, hint).0;
    assert EventOk(net, trace, i);
    assert EventOk(net, trace, i - 1);
  }

  /** So no request of any run goes anywhere but over HTTPS to a host that is public by name and by address. */
  lemma RequestsArePublic(net: Net, serverUrl: string, hint: Option<string>, i: nat)
    requires NeedsColon(net.v6)
    requires i < |Discover(net, serverUrl, hint).0| && Discover(net, serverUrl, hint).0[i].Requested?
    ensures exists parts :: net.parse(Discover(net, serverUrl, hint).0[i].url) == Some(parts)
                            && parts.scheme == "https" && IsPublic(parts.hostname, net.v6, net.nonPublic)
  {
    RequestsMeetBaseline(net, serverUrl, hint, i);
    var url := Discover(net, serverUrl, hint).0[i].url;
    BlockedExactly(net.parse(url).value.hostname, net.v6, net.nonPublic);
  }

  // -----  Which document a stage returns  -----

  /** The trace of candidates tried in full. */
  function Attempts(urls: seq<string>): (trace: seq<Event>)
    ensures |trace| == 2 * |urls|
  {
    if urls == [] then [] else [Validated(urls[0], true), Requested(urls[0])] + Attempts(urls[1..])
  }

  /** What candidate `i` answers when all before it were tried. */
  function AnswerOf(net: Net, urls: seq<string>, trace: seq<Event>, i: nat): Option<Fields>
    requires i < |urls|
  {
    Document(net.reply(|trace| + 2 * i + 1, urls[i]))
  }

  /** The outcome of a stage that tried the first `n` candidates and found none of them to yield a document. */
  ghost predicate EndsAt(
    net: Net, urls: seq<string>, trace: seq<Event>, n: nat, after: seq<Event>, r: Result<Fields, DiscoveryError>)
  {
    && n <= |urls|
    && (forall i :: 0 <= i < n ==> AnswerOf(net, urls, trace, i).None?)
    && match r
       case Ok(fields) =>
         n < |urls| && AnswerOf(net, urls, trace, n) == Some(fields) && after == trace + Attempts(urls[..n + 1])
       case Err(Rejected(url)) =>
         n < |urls| && url == urls[n] && after == trace + Attempts(urls[..n]) + [Validated(url, false)]
       case Err(error) => error.NotFetched? && n == |urls| && after == trace + Attempts(urls[..n])
  }

  lemma AttemptFirst(url: string, urls: seq<string>)
    ensures Attempts([url] + urls) == [Validated(url, true), Requested(url)] + Attempts(urls)
  {
    assert ([url] + urls)[1..] == urls;
  }

  /** The stage on the remaining candidates ends where the whole stage ends. */
  lemma EndsAtNext(
    net: Net, urls: seq<string>, trace: seq<Event>, m: nat, after: seq<Event>, r: Result<Fields, DiscoveryError>)
    requires urls != [] && AnswerOf(net, urls, trace, 0).None?
    requires EndsAt(net, urls[1..], trace + [Validated(urls[0], true), Requested(urls[0])], m, after, r)
    ensures EndsAt(net, urls, trace, m + 1, after, r)
  {
    var requested := trace + [Validated(urls[0], true), Requested(urls[0])];
    forall i | 0 < i < |urls| ensures AnswerOf(net, urls, trace, i) == AnswerOf(net, urls[1..], requested, i - 1) {
    }
    forall k | 0 <= k < |urls|
      ensures requested + Attempts(urls[1..][..k]) == trace + Attempts(urls[..k + 1])
    {
      assert urls[..k + 1] == [urls[0]] + urls[1..][..k];
      AttemptFirst(urls[0], urls[1..][..k]);
    }
  }

  /**
   * A stage tries candidates in order. It returns the document of the earliest that yields one,
   * after trying exactly those up to it; it stops at the first candidate refused; and it gives up
   * only when every candidate was tried and none yielded a document.
   */
  lemma {:induction false} FetchIsEarliest(net: Net, urls: seq<string>, trace: seq<Event>)
    ensures exists n :: EndsAt(net, urls, trace, n, Fetch(net, urls, trace).0, Fetch(net, urls, trace).1)
    decreases |urls|
  {
    var (after, r) := Fetch(net, urls, trace);
    if urls == [] {
      assert trace + Attempts(urls[..0]) == trace;
      assert EndsAt(net, urls, trace, 0, after, r);
    } else {
      var validated := Validate(net, urls[0], trace);
      var requested := trace + [Validated(urls[0], true), Requested(urls[0])];
      if !IsAccepted(net, urls[0], trace) {
        assert trace + Attempts(urls[..0]) == trace;
        assert EndsAt(net, urls, trace, 0, after, r);
      } else {
        assert requested == validated + [Requested(urls[0])];
        if AnswerOf(net, urls, trace, 0).Some? {
          AttemptFirst(urls[0], []);
          assert urls[..1] == [urls[0]] + [];
          assert EndsAt(net, urls, trace, 0, after, r);
        } else {
          FetchIsEarliest(net, urls[1..], requested);
          var m :| EndsAt(net, urls[1..], requested, m, after, r);
          EndsAtNext(net, urls, trace, m, after, r);
        }
      }
    }
  }

  /** The trace of URLs accepted without being requested. */
  function Acceptances(urls: seq<string>): seq<Event>
  {
    if urls == [] then [] else [Validated(urls[0], true)] + Acceptances(urls[1..])
  }

  lemma AcceptFirst(trace: seq<Event>, urls: seq<string>)
    requires urls != []
    ensures trace + [Validated(urls[0], true)] + Acceptances(urls[1..]) == trace + Acceptances(urls)
  {
  }

  lemma {:induction false} ValidateAllAccepts(net: Net, urls: seq<string>, trace: seq<Event>)
    requires ValidateAll(net, urls, trace).1.None?
    ensures ValidateAll(net, urls, trace).0 == trace + Acceptances(urls)
    decreases |urls|
  {
    if urls == [] {
      assert trace + [] == trace;
    } else {
      ValidateAllAccepts(net, urls[1..], Validate(net, urls[0], trace));
      AcceptFirst(trace, urls);
    }
  }

  /** How a successful run went: the candidates tried for each document, and the two documents found. */
  datatype Story = Story(
    prm: seq<string>, n: nat, resource: Fields, authServer: string, asm: seq<string>, m: nat, server: Fields)

  /** The trace of a run that went as the story says. */
  ghost function TraceOf(serverUrl: string, story: Story): seq<Event>
    requires story.n < |story.prm| && story.m < |story.asm|
    requires TextField(story.server, "authorization_endpoint").Some? && TextField(story.server, "token_endpoint").Some?
  {
    [Validated(serverUrl, true)] + Attempts(story.prm[..story.n + 1])
    + [Validated(story.authServer, true)] + Attempts(story.asm[..story.m + 1])
    + Acceptances(Endpoints(story.server))
  }

  /** Candidate `n` is the earliest that yields a document, and yields this one. */
  ghost predicate Finds(net: Net, urls: seq<string>, trace: seq<Event>, n: nat, fields: Fields)
  {
    && n < |urls| && AnswerOf(net, urls, trace, n) == Some(fields)
    && forall i :: 0 <= i < n ==> AnswerOf(net, urls, trace, i).None?
  }

  /** The story is that of a run: each document is the earliest its candidates yield. */
  ghost predicate Tells(net: Net, serverUrl: string, hint: Option<string>, story: Story)
  {
    && net.parse(serverUrl).Some? && story.prm == PrmCandidates(net, hint, net.parse(serverUrl).value)
    && Finds(net, story.prm, [Validated(serverUrl, true)], story.n, story.resource)
    && AuthorizationServer(story.resource) == Some(story.authServer)
    && net.parse(story.authServer).Some? && story.asm == AsmCandidates(net, net.parse(story.authServer).value)
    && Finds(net, story.asm,
             [Validated(serverUrl, true)] + Attempts(story.prm[..story.n + 1]) + [Validated(story.authServer, true)],
             story.m, story.server)
    && TextField(story.server, "authorization_endpoint").Some? && TextField(story.server, "token_endpoint").Some?
  }

  lemma SuccessfulFetch(net: Net, urls: seq<string>, trace: seq<Event>) returns (n: nat)
    requires Fetch(net, urls, trace).1.Ok?
    ensures Finds(net, urls, trace, n, Fetch(net, urls, trace).1.value)
    ensures Fetch(net, urls, trace).0 == trace + Attempts(urls[..n + 1])
  {
    FetchIsEarliest(net, urls, trace);
    n :| EndsAt(net, urls, trace, n, Fetch(net, urls, trace).0, Fetch(net, urls, trace).1);
  }

  lemma SuccessfulConclusion(net: Net, server: Fields, resource: Fields, trace: seq<Event>)
    requires Conclude(net, server, resource, trace).1.Ok?
    ensures TextField(server, "authorization_endpoint").Some? && TextField(server, "token_endpoint").Some?
    ensures Conclude(net, server, resource, trace)
            == (trace + Acceptances(Endpoints(server)), Ok(MetadataOf(server, resource)))
  {
    ValidateAllAccepts(net, Endpoints(server), trace);
  }

  lemma SuccessfulServer(net: Net, resource: Fields, trace: seq<Event>)
    returns (authServer: string, asm: seq<string>, m: nat, server: Fields)
    requires ViaServer(net, resource, trace).1.Ok?
    ensures AuthorizationServer(resource) == Some(authServer)
    ensures net.parse(authServer).Some? && asm == AsmCandidates(net, net.parse(authServer).value)
    ensures Finds(net, asm, trace + [Validated(authServer, true)], m, server)
    ensures TextField(server, "authorization_endpoint").Some? && TextField(server, "token_endpoint").Some?
    ensures ViaServer(net, resource, trace)
            == (trace + [Validated(authServer, true)] + Attempts(asm[..m + 1]) + Acceptances(Endpoints(server)),
                Ok(MetadataOf(server, resource)))
  {
    authServer := AuthorizationServer(resource).value;
    assert IsAccepted(net, authServer, trace);
    var validated := Validate(net, authServer, trace);
    asm := AsmCandidates(net, net.parse(authServer).value);
    m := SuccessfulFetch(net, asm, validated);
    server := Fetch(net, asm, validated).1.value;
    SuccessfulConclusion(net, server, resource, validated + Attempts(asm[..m + 1]));
  }

  lemma SuccessfulResource(net: Net, serverUrl: string, hint: Option<string>) returns (n: nat, resource: Fields)
    requires Discover(net, serverUrl, hint).1.Ok?
    ensures net.parse(serverUrl).Some?
    ensures var prm := PrmCandidates(net, hint, net.parse(serverUrl).value);
            && Finds(net, prm, [Validated(serverUrl, true)], n, resource)
            && Discover(net, serverUrl, hint)
               == ViaServer(net, resource, [Validated(serverUrl, true)] + Attempts(prm[..n + 1]))
  {
    assert IsAccepted(net, serverUrl, []);
    var start := [Validated(serverUrl, true)];
    assert Validate(net, serverUrl, []) == start;
    var prm := PrmCandidates(net, hint, net.parse(serverUrl).value);
    n := SuccessfulFetch(net, prm, start);
    resource := Fetch(net, prm, start).1.value;
  }

  /** The parts of the trace, put together. */
  lemma TraceIs(serverUrl: string, story: Story, fetched: seq<Event>)
    requires story.n < |story.prm| && story.m < |story.asm|
    requires TextField(story.server, "authorization_endpoint").Some? && TextField(story.server, "token_endpoint").Some?
    requires fetched == [Validated(serverUrl, true)] + Attempts(story.prm[..story.n + 1])
    ensures TraceOf(serverUrl, story)
            == fetched + [Validated(story.authServer, true)] + Attempts(story.asm[..story.m + 1])
               + Acceptances(Endpoints(story.server))
  {
  }

  lemma SuccessfulStory(net: Net, serverUrl: string, hint: Option<string>, n: nat, resource: Fields)
    returns (story: Story)
    requires net.parse(serverUrl).Some?
    requires var prm := PrmCandidates(net, hint, net.parse(serverUrl).value);
             && Finds(net, prm, [Validated(serverUrl, true)], n, resource)
             && ViaServer(net, resource, [Validated(serverUrl, true)] + Attempts(prm[..n + 1])).1.Ok?
    ensures Tells(net, serverUrl, hint, story) && story.n == n && story.resource == resource
    ensures ViaServer(net, resource, [Validated(serverUrl, true)] + Attempts(story.prm[..n + 1]))
            == (TraceOf(serverUrl, story), Ok(MetadataOf(story.server, resource)))
  {
    var prm := PrmCandidates(net, hint, net.parse(serverUrl).value);
    var fetched := [Validated(serverUrl, true)] + Attempts(prm[..n + 1]);
    var authServer, asm, m, server := SuccessfulServer(net, resource, fetched);
    story := Story(prm, n, resource, authServer, asm, m, server);
    TraceIs(serverUrl, story, fetched);
  }

  /**
   * A successful run did this and nothing else: it tried the resource's candidates in order up to
   * the first that answered with a document, then those of the first authorization server that
   * document names, and checked the endpoints; the metadata comes from just those two documents.
   */
  lemma SuccessfulRun(net: Net, serverUrl: string, hint: Option<string>) returns (story: Story)
    requires Discover(net, serverUrl, hint).1.Ok?
    ensures Tells(net, serverUrl, hint, story)
    ensures Discover(net, serverUrl, hint) == (TraceOf(serverUrl, story), Ok(MetadataOf(story.server, story.resource)))
  {
    var n, resource := SuccessfulResource(net, serverUrl, hint);
    story := SuccessfulStory(net, serverUrl, hint, n, resource);
  }

  // -----  When a run succeeds  -----

  /** Every URL validated meets the baseline, and the policy accepted it at that moment. */
  ghost predicate AllAccepted(net: Net, trace: seq<Event>)
  {
    forall i :: 0 <= i < |trace| && trace[i].Validated? ==>
                  MeetsBaseline(net, trace[i].url) && net.accepts(i, trace[i].url)
  }

  lemma AcceptedPrefix(net: Net, trace: seq<Event>, prefix: seq<Event>)
    requires AllAccepted(net, trace) && prefix <= trace
    ensures AllAccepted(net, prefix)
  {
  }

  lemma AcceptedNext(net: Net, trace: seq<Event>, before: seq<Event>, url: string)
    requires AllAccepted(net, trace) && before + [Validated(url, true)] <= trace
    ensures IsAccepted(net, url, before)
  {
    assert trace[|before|] == (before + [Validated(url, true)])[|before|];
  }

  lemma AttemptsFrom(trace: seq<Event>, urls: seq<string>, n: nat)
    requires n < |urls|
    ensures trace + Attempts(urls[..n + 1])
            == trace + ([Validated(urls[0], true)] + ([Requested(urls[0])] + Attempts(urls[1..][..n])))
    ensures trace + Attempts(urls[..n + 1])
            == trace + [Validated(urls[0], true), Requested(urls[0])] + Attempts(urls[1..][..n])
  {
    assert urls[..n + 1] == [urls[0]] + urls[1..][..n];
    AttemptFirst(urls[0], urls[1..][..n]);
  }

  lemma FindsNext(net: Net, urls: seq<string>, trace: seq<Event>, n: nat, fields: Fields)
    requires n > 0 && Finds(net, urls, trace, n, fields)
    ensures AnswerOf(net, urls, trace, 0).None?
    ensures Finds(net, urls[1..], trace + [Validated(urls[0], true), Requested(urls[0])], n - 1, fields)
  {
    var requested := trace + [Validated(urls[0], true), Requested(urls[0])];
    forall i | 0 <= i < |urls| - 1 ensures AnswerOf(net, urls[1..], requested, i) == AnswerOf(net, urls, trace, i + 1) {
    }
  }

  /** A stage whose URLs are accepted gets to the earliest document. */
  lemma {:induction false} FetchTo(net: Net, urls: seq<string>, trace: seq<Event>, n: nat, fields: Fields)
    requires Finds(net, urls, trace, n, fields) && AllAccepted(net, trace + Attempts(urls[..n + 1]))
    ensures Fetch(net, urls, trace) == (trace + Attempts(urls[..n + 1]), Ok(fields))
    decreases |urls|
  {
    var requested := trace + [Validated(urls[0], true), Requested(urls[0])];
    AttemptsFrom(trace, urls, n);
    AcceptedNext(net, trace + Attempts(urls[..n + 1]), trace, urls[0]);
    assert requested == Validate(net, urls[0], trace) + [Requested(urls[0])];
    if n == 0 {
      assert requested + [] == requested;
    } else {
      FindsNext(net, urls, trace, n, fields);
      assert urls[1..][..n - 1 + 1] == urls[1..][..n];
      FetchTo(net, urls[1..], requested, n - 1, fields);
    }
  }

  lemma {:induction false} ValidateAllTo(net: Net, urls: seq<string>, trace: seq<Event>)
    requires AllAccepted(net, trace + Acceptances(urls))
    ensures ValidateAll(net, urls, trace) == (trace + Acceptances(urls), None)
    decreases |urls|
  {
    if urls == [] {
      assert trace + [] == trace;
    } else {
      AcceptFirst(trace, urls);
      AcceptedNext(net, trace + Acceptances(urls), trace, urls[0]);
      ValidateAllTo(net, urls[1..], trace + [Validated(urls[0], true)]);
    }
  }

  lemma ServerTo(net: Net, resource: Fields, trace: seq<Event>, authServer: string, m: nat, server: Fields)
    requires AuthorizationServer(resource) == Some(authServer) && net.parse(authServer).Some?
    requires TextField(server, "authorization_endpoint").Some? && TextField(server, "token_endpoint").Some?
    requires Finds(
               net, AsmCandidates(net, net.parse(authServer).value), trace + [Validated(authServer, true)], m, server)
    requires var asm := AsmCandidates(net, net.parse(authServer).value);
             AllAccepted(net, trace + [Validated(authServer, true)] + Attempts(asm[..m + 1])
                              + Acceptances(Endpoints(server)))
    ensures ViaServer(net, resource, trace).1.Ok?
  {
    var asm := AsmCandidates(net, net.parse(authServer).value);
    var validated := trace + [Validated(authServer, true)];
    var fetched := validated + Attempts(asm[..m + 1]);
    var all := fetched + Acceptances(Endpoints(server));
    AcceptedPrefix(net, all, fetched);
    AcceptedNext(net, all, trace, authServer);
    FetchTo(net, asm, validated, m, server);
    ValidateAllTo(net, Endpoints(server), fetched);
  }

  lemma ResourceTo(net: Net, serverUrl: string, hint: Option<string>, n: nat, resource: Fields)
    requires net.parse(serverUrl).Some?
    requires var prm := PrmCandidates(net, hint, net.parse(serverUrl).value);
             && Finds(net, prm, [Validated(serverUrl, true)], n, resource)
             && AllAccepted(net, [Validated(serverUrl, true)] + Attempts(prm[..n + 1]))
    ensures var prm := PrmCandidates(net, hint, net.parse(serverUrl).value);
            Discover(net, serverUrl, hint)
            == ViaServer(net, resource, [Validated(serverUrl, true)] + Attempts(prm[..n + 1]))
  {
    var start := [Validated(serverUrl, true)];
    var prm := PrmCandidates(net, hint, net.parse(serverUrl).value);
    assert [] + start == start;
    AcceptedNext(net, start + Attempts(prm[..n + 1]), [], serverUrl);
    FetchTo(net, prm, start, n, resource);
  }

  lemma ToldServerSucceeds(net: Net, serverUrl: string, hint: Option<string>, story: Story, fetched: seq<Event>)
    requires Tells(net, serverUrl, hint, story) && AllAccepted(net, TraceOf(serverUrl, story))
    requires fetched == [Validated(serverUrl, true)] + Attempts(story.prm[..story.n + 1])
    ensures ViaServer(net, story.resource, fetched).1.Ok?
  {
    TraceIs(serverUrl, story, fetched);
    ServerTo(net, story.resource, fetched, story.authServer, story.m, story.server);
  }

  lemma FetchedIsPrefix(serverUrl: string, story: Story, fetched: seq<Event>)
    requires story.n < |story.prm| && story.m < |story.asm|
    requires TextField(story.server, "authorization_endpoint").Some? && TextField(story.server, "token_endpoint").Some?
    requires fetched == [Validated(serverUrl, true)] + Attempts(story.prm[..story.n + 1])
    ensures fetched <= TraceOf(serverUrl, story)
  {
  }

  lemma ToldResourceIsFetched(net: Net, serverUrl: string, hint: Option<string>, story: Story, fetched: seq<Event>)
    requires Tells(net, serverUrl, hint, story) && AllAccepted(net, TraceOf(serverUrl, story))
    requires fetched == [Validated(serverUrl, true)] + Attempts(story.prm[..story.n + 1])
    ensures Discover(net, serverUrl, hint) == ViaServer(net, story.resource, fetched)
  {
    FetchedIsPrefix(serverUrl, story, fetched);
    AcceptedPrefix(net, TraceOf(serverUrl, story), fetched);
    ResourceTo(net, serverUrl, hint, story.n, story.resource);
  }

  lemma ToldRunSucceeds(net: Net, serverUrl: string, hint: Option<string>, story: Story)
    requires Tells(net, serverUrl, hint, story) && AllAccepted(net, TraceOf(serverUrl, story))
    ensures Discover(net, serverUrl, hint).1.Ok?
  {
    var fetched := [Validated(serverUrl, true)] + Attempts(story.prm[..story.n + 1]);
    ToldResourceIsFetched(net, serverUrl, hint, story, fetched);
    ToldServerSucceeds(net, serverUrl, hint, story, fetched);
  }

  lemma CleanIsAccepted(net: Net, trace: seq<Event>)
    requires Disciplined(net, trace) && NoneRefused(trace)
    ensures AllAccepted(net, trace)
  {
    forall i | 0 <= i < |trace| && trace[i].Validated?
      ensures MeetsBaseline(net, trace[i].url) && net.accepts(i, trace[i].url)
    {
      assert EventOk(net, trace, i);
    }
  }

  /**
   * Exactly when a run succeeds: the first document among the resource's candidates names an
   * authorization server, the first document among that server's candidates has the two
   * endpoints, and every URL validated on the way is accepted.
   */
  lemma RunSucceedsExactly(net: Net, serverUrl: string, hint: Option<string>)
    ensures Discover(net, serverUrl, hint).1.Ok?
            <==> exists story :: Tells(net, serverUrl, hint, story) && AllAccepted(net, TraceOf(serverUrl, story))
  {
    if Discover(net, serverUrl, hint).1.Ok? {
      var story := SuccessfulRun(net, serverUrl, hint);
      DiscoveryIsDisciplined(net, serverUrl, hint);
      CleanIsAccepted(net, TraceOf(serverUrl, story));
    }
    if story :| Tells(net, serverUrl, hint, story) && AllAccepted(net, TraceOf(serverUrl, story)) {
      ToldRunSucceeds(net, serverUrl, hint, story);
    }
  }

  /**
   * From the server's document to the callback: where it names an issuer and promises to send it,
   * the configuration built from the discovered metadata lets through that issuer and nothing else.
   */
  lemma DiscoveredIssuerIsRequired(
    net: Net, serverUrl: string, hint: Option<string>, clientId: string, secret: Option<string>,
    registered: Option<string>, scopes: seq<string>, redirectUri: Option<string>, resource: Option<string>,
    hasScheme: string -> bool, iss: Option<string>) returns (story: Story)
    requires Discover(net, serverUrl, hint).1.Ok?
    ensures Tells(net, serverUrl, hint, story)
    ensures var built := ToProviderConfig(Discover(net, serverUrl, hint).1.value, clientId, secret, registered, scopes,
                                          redirectUri, resource, hasScheme);
            forall issuer ::
              && Field(story.server, "issuer") == Some(Text(issuer))
              && Field(story.server, "authorization_response_iss_parameter_supported") == Some(Bool(true))
              && built.Ok?
              ==> (IssuerAccepted(built.value, iss) <==> iss == Some(issuer))
  {
    story := SuccessfulRun(net, serverUrl, hint);
    var metadata := MetadataOf(story.server, story.resource);
    MetadataIsDeclared(story.server, story.resource);
    if ToProviderConfig(metadata, clientId, secret, registered, scopes, redirectUri, resource, hasScheme).Ok? {
      BuiltConfigIsBound(metadata, clientId, secret, registered, scopes, redirectUri, resource, hasScheme, iss);
    }
  }
}
