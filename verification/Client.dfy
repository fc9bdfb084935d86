/** The authorization-code client (client.py), its network replaced by the endpoint's outcome. */
module Client {
  import opened Wrappers
  import opened Base64Url
  import opened Pkce
  import opened ProviderConfigs
  import opened QueryStrings
  import opened Scopes
  import opened Stores
  import Utf8

  datatype OAuthError =
    | MissingRedirectUri
    | IssuerRejected
    | InvalidState
    | ExchangeFailed(code: string)
    | MalformedResponse

  /** The fields of a token request, the keyword arguments of one call. */
  type Form = map<string, string>

  /**
   * What became of a token request: a response object, or an error with its OAuth code if it had
   * one. `usable` is whether the fields with a slot of their own can be put there: `expires_in`
   * is then a value `int` accepts, and the others are of the slot's type.
   */
  datatype TokenOutcome = Response(fields: map<string, string>, usable: bool) | Failure(code: string)

  datatype TokenSet = TokenSet(accessToken: string, metadata: map<string, string>, context: Metadata)

  /** `redirect_uri or config.redirect_uri`, an empty text counting as absent. */
  function EffectiveRedirect(config: ProviderConfig, redirectUri: Option<string>): Option<string>
  {
    if redirectUri.Some? && redirectUri.value != "" then redirectUri
    else if config.redirectUri.Some? && config.redirectUri.value != "" then config.redirectUri
    else None
  }

  ghost predicate IsNonEmpty(text: Option<string>)
  {
    text.Some? && text.value != ""
  }

  /** The redirect URI is the one asked for if that is not empty, and otherwise the configured one. */
  ghost predicate IsChosen(redirectUri: string, asked: Option<string>, configured: Option<string>)
  {
    redirectUri != "" && Some(redirectUri) == if IsNonEmpty(asked) then asked else configured
  }

  lemma EffectiveIsChosen(config: ProviderConfig, asked: Option<string>)
    ensures EffectiveRedirect(config, asked).Some? <==> IsNonEmpty(asked) || IsNonEmpty(config.redirectUri)
    ensures EffectiveRedirect(config, asked).Some? ==>
              IsChosen(EffectiveRedirect(config, asked).value, asked, config.redirectUri)
  {
  }

  /** The context is the metadata given, and empty when none was given. */
  ghost predicate IsContext(context: Metadata, metadata: Option<Metadata>)
  {
    match metadata
    case Some(given) => context == given
    case None => context == map[]
  }

  /** A dictionary of texts as the pairs it holds. */
  function Singletons(pairs: Pairs): (d: Dict)
    ensures |d| == |pairs| && forall i :: 0 <= i < |d| ==> d[i] == (pairs[i].0, [pairs[i].1])
  {
    seq(|pairs|, i requires 0 <= i < |pairs| => (pairs[i].0, [pairs[i].1]))
  }

  /** The configured extra parameters are a dictionary: no key twice. */
  predicate IsConfig(config: ProviderConfig)
  {
    IsDict(Singletons(config.extraParams))
  }

  function RequiredParams(clientId: string, redirectUri: string, state: string): Dict
  {
    [("client_id", [clientId]), ("response_type", ["code"]), ("redirect_uri", [redirectUri]), ("state", [state])]
  }

  /** The authorization parameters, in the order they are set. */
  function AuthorizationParams(
    config: ProviderConfig, redirectUri: string, state: string, verifier: Option<string>, sha256: Digest): Dict
  {
    var required := RequiredParams(config.clientId, redirectUri, state);
    var scoped :=
      if config.scopes == [] then required
      else Put(required, "scope", [JoinScopes(config.scopes, config.scopeSeparator)]);
    var challenged :=
      if verifier.None? then scoped
      else
        Put(Put(scoped, "code_challenge", [GenerateCodeChallenge(verifier.value, sha256)]),
            "code_challenge_method", ["S256"]);
    var extended := Update(challenged, Singletons(config.extraParams));
    if config.resource.None? then extended else Put(extended, "resource", [config.resource.value])
  }

  /** The value the protocol itself gives a parameter, if it gives one. */
  function ProtocolValue(
    config: ProviderConfig, redirectUri: string, state: string, verifier: Option<string>, sha256: Digest, key: string)
    : Option<string>
  {
    if key == "client_id" then Some(config.clientId)
    else if key == "response_type" then Some("code")
    else if key == "redirect_uri" then Some(redirectUri)
    else if key == "state" then Some(state)
    else if key == "scope" && config.scopes != [] then Some(JoinScopes(config.scopes, config.scopeSeparator))
    else if key == "code_challenge" && verifier.Some? then Some(GenerateCodeChallenge(verifier.value, sha256))
    else if key == "code_challenge_method" && verifier.Some? then Some("S256")
    else None
  }

  /** Four keys the flow depends on, none of them the resource's. */
  lemma ProtocolGives(
    config: ProviderConfig, redirectUri: string, state: string, verifier: Option<string>, sha256: Digest)
    ensures "state" != "resource"
    ensures ProtocolValue(config, redirectUri, state, verifier, sha256, "state") == Some(state)
    ensures "redirect_uri" != "resource"
    ensures ProtocolValue(config, redirectUri, state, verifier, sha256, "redirect_uri") == Some(redirectUri)
    ensures "code_challenge" != "resource" && "code_challenge_method" != "resource"
    ensures verifier.Some? ==>
              && ProtocolValue(config, redirectUri, state, verifier, sha256, "code_challenge_method") == Some("S256")
              && ProtocolValue(config, redirectUri, state, verifier, sha256, "code_challenge")
                 == Some(GenerateCodeChallenge(verifier.value, sha256))
  {
    assert |"state"| == 5 && |"redirect_uri"| == 12 && |"resource"| == 8 && |"client_id"| == 9;
    assert |"response_type"| == 13 && |"scope"| == 5 && "scope"[1] != "state"[1];
    assert |"code_challenge"| == 14 && |"code_challenge_method"| == 21;
  }

  /** What the parameters set for a key: the resource first, then the extra ones, then the protocol's. */
  function ParamFor(
    config: ProviderConfig, redirectUri: string, state: string, verifier: Option<string>, sha256: Digest, key: string)
    : Option<string>
  {
    if key == "resource" && config.resource.Some? then config.resource
    else if HasKey(Singletons(config.extraParams), key) then
      var values := Get(Singletons(config.extraParams), key);
      if values == [] then None else Some(values[0])
    else ProtocolValue(config, redirectUri, state, verifier, sha256, key)
  }

  lemma {:induction false} SingletonsGet(pairs: Pairs, key: string)
    ensures HasKey(Singletons(pairs), key) ==> |Get(Singletons(pairs), key)| == 1
  {
    if pairs != [] {
      assert Singletons(pairs)[1..] == Singletons(pairs[1..]);
      SingletonsGet(pairs[1..], key);
    }
  }

  lemma DictCons(head: (string, seq<string>), tail: Dict, key: string)
    ensures HasKey([head] + tail, key) <==> head.0 == key || HasKey(tail, key)
    ensures Get([head] + tail, key) == if head.0 == key then head.1 else Get(tail, key)
    ensures IsDict([head] + tail) <==> head.1 != [] && !HasKey(tail, head.0) && IsDict(tail)
  {
    assert ([head] + tail)[1..] == tail;
  }

  lemma RequiredGive(clientId: string, redirectUri: string, state: string, key: string)
    ensures var params := RequiredParams(clientId, redirectUri, state);
            && IsDict(params)
            && (HasKey(params, key) <==> key in {"client_id", "response_type", "redirect_uri", "state"})
            && (key == "client_id" ==> Get(params, key) == [clientId])
            && (key == "response_type" ==> Get(params, key) == ["code"])
            && (key == "redirect_uri" ==> Get(params, key) == [redirectUri])
            && (key == "state" ==> Get(params, key) == [state])
  {
    var id := ("client_id", [clientId]);
    var kind := ("response_type", ["code"]);
    var redirect := ("redirect_uri", [redirectUri]);
    var token := ("state", [state]);
    assert [token] + [] == [token] && [redirect] + [token] == [redirect, token];
    assert [kind] + [redirect, token] == [kind, redirect, token];
    assert [id] + [kind, redirect, token] == RequiredParams(clientId, redirectUri, state);
    forall k ensures HasKey([token], k) <==> k == "state" {
      DictCons(token, [], k);
    }
    forall k ensures HasKey([redirect, token], k) <==> k == "redirect_uri" || k == "state" {
      DictCons(redirect, [token], k);
    }
    forall k ensures HasKey([kind, redirect, token], k) <==> k in {"response_type", "redirect_uri", "state"} {
      DictCons(kind, [redirect, token], k);
    }
    DictCons(token, [], key);
    DictCons(redirect, [token], key);
    DictCons(kind, [redirect, token], key);
    DictCons(id, [kind, redirect, token], key);
  }

  /** The parameters set before the extra ones. */
  lemma ProtocolParamsGive(
    config: ProviderConfig, redirectUri: string, state: string, verifier: Option<string>, sha256: Digest, key: string)
    ensures var params := AuthorizationParams(
                config.(extraParams := [], resource := None), redirectUri, state, verifier, sha256);
            var given := ProtocolValue(config, redirectUri, state, verifier, sha256, key);
            && IsDict(params)
            && (HasKey(params, key) <==> given.Some?)
            && (given.Some? ==> Get(params, key) == [given.value])
  {
    var scoped := RequiredParams(config.clientId, redirectUri, state);
    RequiredGive(config.clientId, redirectUri, state, key);
    if config.scopes != [] {
      var scope := [JoinScopes(config.scopes, config.scopeSeparator)];
      PutGives(scoped, "scope", scope, key);
      PutIsDict(scoped, "scope", scope);
      scoped := Put(scoped, "scope", scope);
    }
    if verifier.Some? {
      var challenge := [GenerateCodeChallenge(verifier.value, sha256)];
      var challenged := Put(scoped, "code_challenge", challenge);
      PutGives(scoped, "code_challenge", challenge, key);
      PutIsDict(scoped, "code_challenge", challenge);
      PutGives(challenged, "code_challenge_method", ["S256"], key);
      PutIsDict(challenged, "code_challenge_method", ["S256"]);
    }
    assert Singletons([]) == [];
  }

  /** The precedence of the parameters, for every key. */
  lemma ParamsGive(
    config: ProviderConfig, redirectUri: string, state: string, verifier: Option<string>, sha256: Digest, key: string)
    requires IsConfig(config)
    ensures var params := AuthorizationParams(config, redirectUri, state, verifier, sha256);
            var given := ParamFor(config, redirectUri, state, verifier, sha256, key);
            && IsDict(params)
            && (HasKey(params, key) <==> given.Some?)
            && (given.Some? ==> Get(params, key) == [given.value])
  {
    var protocol := AuthorizationParams(
      config.(extraParams := [], resource := None), redirectUri, state, verifier, sha256);
    var extra := Singletons(config.extraParams);
    assert Singletons([]) == [];
    ProtocolParamsGive(config, redirectUri, state, verifier, sha256, key);
    SingletonsGet(config.extraParams, key);
    UpdateOverrides(protocol, extra, key);
    UpdateKeys(protocol, extra, key);
    if config.resource.Some? {
      PutGives(Update(protocol, extra), "resource", [config.resource.value], key);
      PutIsDict(Update(protocol, extra), "resource", [config.resource.value]);
    }
  }

  /** The query of the authorization URL, given the query the configured URL already has. */
  function AuthorizationQuery(
    config: ProviderConfig, query: string, redirectUri: string, state: string, verifier: Option<string>, sha256: Digest)
    : string
  {
    MergeQuery(query, AuthorizationParams(config, redirectUri, state, verifier, sha256))
  }

  /**
   * What the authorization server reads for each key: the configured resource, else the
   * extra parameter, else the protocol's value, else what the configured URL carried.
   */
  lemma AuthorizationQueryReads(
    config: ProviderConfig, query: string, redirectUri: string, state: string, verifier: Option<string>,
    sha256: Digest, key: string)
    requires IsConfig(config)
    ensures var read := Values(
                FormDecode(AuthorizationQuery(config, query, redirectUri, state, verifier, sha256), true), key);
            var given := ParamFor(config, redirectUri, state, verifier, sha256, key);
            read == if given.Some? then [given.value] else Values(FormDecode(query, false), key)
  {
    ParamsGive(config, redirectUri, state, verifier, sha256, key);
    MergedQueryReads(query, AuthorizationParams(config, redirectUri, state, verifier, sha256), key);
  }

  /** The extra parameters give the key no other value than this. */
  predicate Leaves(config: ProviderConfig, key: string, value: string)
  {
    forall pair :: pair in config.extraParams && pair.0 == key ==> pair.1 == value
  }

  lemma {:induction false} SingletonsHold(pairs: Pairs, key: string)
    requires IsDict(Singletons(pairs))
    ensures HasKey(Singletons(pairs), key) <==> exists pair :: pair in pairs && pair.0 == key
    ensures forall pair :: pair in pairs && pair.0 == key ==> Get(Singletons(pairs), key) == [pair.1]
  {
    if pairs != [] {
      assert Singletons(pairs)[1..] == Singletons(pairs[1..]);
      SingletonsHold(pairs[1..], key);
      SingletonsHold(pairs[1..], pairs[0].0);
      assert pairs[0] in pairs && forall pair :: pair in pairs <==> pair == pairs[0] || pair in pairs[1..];
    }
  }

  /** A parameter reaches the server as the protocol set it exactly when no extra parameter gives it another value. */
  lemma ReadAsSetExactly(
    config: ProviderConfig, query: string, redirectUri: string, state: string, verifier: Option<string>,
    sha256: Digest, key: string)
    requires IsConfig(config) && key != "resource"
    ensures var given := ProtocolValue(config, redirectUri, state, verifier, sha256, key);
            var read := Values(
                FormDecode(AuthorizationQuery(config, query, redirectUri, state, verifier, sha256), true), key);
            given.Some? ==> (read == [given.value] <==> Leaves(config, key, given.value))
  {
    AuthorizationQueryReads(config, query, redirectUri, state, verifier, sha256, key);
    SingletonsGet(config.extraParams, key);
    SingletonsHold(config.extraParams, key);
  }

  /** A configuration whose extra parameters name the challenge. */
  const SHADOWING := ProviderConfig(
    "client", None, "https://as.example/authorize", "https://as.example/token", None, None, [], ' ', true, NONE,
    [("code_challenge", "x")], map[], None, false, None)

  /** With it the server reads that text as the challenge, and no verifier meets it. */
  lemma ExtraChallengeShadows(query: string, redirectUri: string, state: string, verifier: string, sha256: Digest)
    ensures CheckSecret(SHADOWING).None? && IsConfig(SHADOWING)
    ensures Values(FormDecode(AuthorizationQuery(SHADOWING, query, redirectUri, state, Some(verifier), sha256), true),
                   "code_challenge") == ["x"]
    ensures forall other :: GenerateCodeChallenge(other, sha256) != "x"
  {
    var extra := SHADOWING.extraParams;
    assert Singletons(extra) == [("code_challenge", ["x"])] && Singletons(extra)[1..] == [];
    assert IsDict(Singletons(extra));
    AuthorizationQueryReads(SHADOWING, query, redirectUri, state, Some(verifier), sha256, "code_challenge");
    forall other ensures GenerateCodeChallenge(other, sha256) != "x" {
      UnpaddedShape(sha256(Utf8.Encode(other)));
    }
  }

  /** `metadata or {}`. */
  function Given(metadata: Option<Metadata>): Metadata
  {
    if metadata.Some? then metadata.value else map[]
  }

  /** The pending state of one authorization request. */
  function NewPending(
    redirectUri: string, state: string, verifier: Option<string>, createdAt: real, metadata: Option<Metadata>)
    : PendingState
  {
    PendingState(state, redirectUri, verifier, createdAt, Given(metadata))
  }

  /** The token request for a code; empty texts are left out like absent ones. */
  function TokenForm(config: ProviderConfig, code: string, redirectUri: Option<string>, verifier: Option<string>)
    : (form: Form)
    ensures "grant_type" in form && form["grant_type"] == "authorization_code"
    ensures "code" in form && form["code"] == code
    ensures "redirect_uri" in form <==> redirectUri.Some? && redirectUri.value != ""
    ensures "redirect_uri" in form ==> form["redirect_uri"] == redirectUri.value
    ensures "code_verifier" in form <==> verifier.Some? && verifier.value != ""
    ensures "code_verifier" in form ==> form["code_verifier"] == verifier.value
    ensures "resource" in form <==> config.resource.Some?
    ensures "resource" in form ==> form["resource"] == config.resource.value
    ensures form.Keys <= {"grant_type", "code", "redirect_uri", "code_verifier", "resource"}
  {
    var required := map["grant_type" := "authorization_code", "code" := code];
    var redirected :=
      if redirectUri.Some? && redirectUri.value != "" then required["redirect_uri" := redirectUri.value] else required;
    var proven :=
      if verifier.Some? && verifier.value != "" then redirected["code_verifier" := verifier.value] else redirected;
    if config.resource.Some? then proven["resource" := config.resource.value] else proven
  }

  /** Response fields with a slot of their own on the token set. */
  const KNOWN_FIELDS := {"access_token", "token_type", "refresh_token", "expires_in", "expires_at", "scope"}

  /** Every field is either one with a slot of its own or kept in the metadata, and none is both. */
  function ParseTokenResponse(fields: map<string, string>, usable: bool, context: Metadata)
    : (r: Result<TokenSet, OAuthError>)
    ensures r.Ok? <==> "access_token" in fields && usable
    ensures r.Err? ==> r.error == MalformedResponse
    ensures r.Ok? ==> r.value.accessToken == fields["access_token"] && r.value.context == context
    ensures r.Ok? ==> r.value.metadata.Keys !! KNOWN_FIELDS && r.value.metadata.Keys <= fields.Keys
    ensures r.Ok? ==> forall key :: key in fields && key !in KNOWN_FIELDS ==>
                        key in r.value.metadata && r.value.metadata[key] == fields[key]
  {
    if "access_token" !in fields || !usable then Err(MalformedResponse)
    else Ok(TokenSet(fields["access_token"], fields - KNOWN_FIELDS, context))
  }

  /** What the caller of an exchange gets once the endpoint has answered. */
  function ExchangeResult(outcome: TokenOutcome, context: Metadata): (r: Result<TokenSet, OAuthError>)
    ensures outcome.Failure? ==> r == Err(ExchangeFailed(outcome.code))
    ensures outcome.Response? ==> (r.Ok? <==> "access_token" in outcome.fields && outcome.usable)
    ensures r.Ok? ==> outcome.Response? && r.value.accessToken == outcome.fields["access_token"]
    ensures r.Ok? ==> r.value.context == context
  {
    match outcome
    case Response(fields, usable) => ParseTokenResponse(fields, usable, context)
    case Failure(code) => Err(ExchangeFailed(code))
  }

  class OAuthClient {
    const config: ProviderConfig
    /** The query of the configured authorization URL. */
    const query: string
    const sha256: Digest
    const clock: Clock
    const store: MemoryStateStore?
    /** The token requests sent so far. */
    ghost var sent: seq<Form>

    ghost predicate Valid()
      reads this, store, clock
    {
      IsConfig(config) && (store != null ==> store.clock == clock && store.Valid())
    }

    constructor (config: ProviderConfig, query: string, sha256: Digest, clock: Clock, store: MemoryStateStore?)
      requires IsConfig(config) && (store != null ==> store.clock == clock && store.Valid())
      ensures Valid() && sent == []
      ensures this.config == config && this.query == query && this.clock == clock && this.store == store
    {
      this.config, this.query, this.sha256, this.clock, this.store := config, query, sha256, clock, store;
      sent := [];
    }

    /** The query of the URL: the parameters one after the other, then merged into the configured ones. */
    method BuildUrl(redirectUri: string, state: string, verifier: Option<string>) returns (url: string)
      requires verifier.Some? <==> config.usePkce
      ensures url == AuthorizationQuery(config, query, redirectUri, state, verifier, sha256)
    {
      var params := RequiredParams(config.clientId, redirectUri, state);
      if config.scopes != [] {
        params := Put(params, "scope", [JoinScopes(config.scopes, config.scopeSeparator)]);
      }
      if config.usePkce {
        params := Put(params, "code_challenge", [GenerateCodeChallenge(verifier.value, sha256)]);
        params := Put(params, "code_challenge_method", ["S256"]);
      }
      params := Update(params, Singletons(config.extraParams));
      if config.resource.Some? {
        params := Put(params, "resource", [config.resource.value]);
      }
      var merged := Group([], FormDecode(query, false));
      merged := Update(merged, params);
      url := FormEncode(Flatten(merged));
    }

    /** The form of the token request, field by field. */
    method BuildForm(code: string, redirectUri: Option<string>, verifier: Option<string>) returns (data: Form)
      ensures data == TokenForm(config, code, redirectUri, verifier)
    {
      data := map["grant_type" := "authorization_code", "code" := code];
      if redirectUri.Some? && redirectUri.value != "" {
        data := data["redirect_uri" := redirectUri.value];
      }
      if verifier.Some? && verifier.value != "" {
        data := data["code_verifier" := verifier.value];
      }
      if config.resource.Some? {
        data := data["resource" := config.resource.value];
      }
    }

    /**
     * Builds the authorization URL and, with a store, saves the pending state. Without a
     * redirect URI nothing is drawn, built or saved. `random` supplies the random bytes of
     * the token and of the verifier.
     */
    method GetAuthorizationUrl(redirectUri: Option<string>, metadata: Option<Metadata>, random: (seq<byte>, seq<byte>))
      returns (r: Result<(string, PendingState), OAuthError>)
      requires Valid()
      modifies clock, store
      ensures Valid() && old(clock.now) <= clock.now
      ensures r.Ok? <==> IsNonEmpty(redirectUri) || IsNonEmpty(config.redirectUri)
      ensures r.Err? ==> r.error == MissingRedirectUri && unchanged(clock)
      ensures r.Err? && store != null ==> unchanged(store)
      ensures r.Ok? ==>
                var (url, pending) := r.value;
                && old(clock.now) <= pending.createdAt <= clock.now
                && pending.state == TokenUrlsafe(random.0)
                && IsChosen(pending.redirectUri, redirectUri, config.redirectUri)
                && pending.codeVerifier == (if config.usePkce then Some(GenerateCodeVerifier(random.1)) else None)
                && IsContext(pending.metadata, metadata)
                && url == AuthorizationQuery(
                            config, query, pending.redirectUri, pending.state, pending.codeVerifier, sha256)
      ensures r.Ok? && store != null ==>
                var pending := r.value.1;
                && pending.state in store.states && store.states[pending.state] == pending
                && ReferenceAfter(store.history) == ReferenceAfter(old(store.history))[pending.state := pending]
    {
      var effective := EffectiveRedirect(config, redirectUri);
      EffectiveIsChosen(config, redirectUri);
      if effective.None? {
        return Err(MissingRedirectUri);
      }
      var state := TokenUrlsafe(random.0);
      var verifier := if config.usePkce then Some(GenerateCodeVerifier(random.1)) else None;
      var url := BuildUrl(effective.value, state, verifier);
      label drawn:
      var createdAt := clock.Time();
      var pending := NewPending(effective.value, state, verifier, createdAt, metadata);
      if store != null {
        InOrderLater(store.history, old@drawn(clock.now), clock.now);
        store.Save(pending);
      }
      r := Ok((url, pending));
    }

    /**
     * Redeems a code. The issuer is checked before anything else; a stored state is consumed
     * before the one token request, and its own redirect URI, verifier and context are used.
     * `outcome` is what the endpoint would answer.
     */
    method ExchangeCode(
      code: string, state: Option<string>, redirectUri: Option<string>, verifier: Option<string>,
      iss: Option<string>, outcome: TokenOutcome)
      returns (r: Result<TokenSet, OAuthError>)
      requires Valid()
      modifies this`sent, clock, store
      ensures Valid() && old(clock.now) <= clock.now
      ensures !IssuerAccepted(config, iss) ==>
                && r == Err(IssuerRejected) && sent == old(sent) && unchanged(clock)
                && (store != null ==> unchanged(store))
      ensures IssuerAccepted(config, iss) && (state.None? || store == null) ==>
                && sent == old(sent) + [TokenForm(config, code, redirectUri, verifier)]
                && r == ExchangeResult(outcome, map[])
                && (store != null ==> unchanged(store))
      ensures IssuerAccepted(config, iss) && state.Some? && store != null ==>
                && store.states == old(store.states) - {state.value}
                && exists now, found :: old(clock.now) <= now <= clock.now
                     && FoundYoung(found, ReferenceAfter(old(store.history)), store.maxAge, state.value, now)
                     && if found.None? then r == Err(InvalidState) && sent == old(sent)
                        else
                          var (redirect, proof) := (Some(found.value.redirectUri), found.value.codeVerifier);
                          && sent == old(sent) + [TokenForm(config, code, redirect, proof)]
                          && r == ExchangeResult(outcome, found.value.metadata)
    {
      if !IssuerAccepted(config, iss) {
        return Err(IssuerRejected);
      }
      var redirect, proof, context := redirectUri, verifier, map[];
      if state.Some? && store != null {
        var pending := store.Consume(state.value);
        if pending.None? {
          return Err(InvalidState);
        }
        redirect := Some(pending.value.redirectUri);
        proof := pending.value.codeVerifier;
        context := pending.value.metadata;
      }
      var data := BuildForm(code, redirect, proof);
      sent := sent + [data];
      match outcome
      case Failure(error) => r := Err(ExchangeFailed(error));
      case Response(fields, usable) => r := ParseTokenResponse(fields, usable, context);
    }
  }
}
