/** Folding discovered MCP metadata and a client identity into a configuration (mcp.py). */
module McpConfig {
  import opened Wrappers
  import opened ProviderConfigs

  datatype ServerMetadata = ServerMetadata(
    authorizeUrl: string,
    tokenUrl: string,
    registrationUrl: Option<string>,
    revocationUrl: Option<string>,
    scopesSupported: seq<string>,
    codeChallengeMethods: seq<string>,
    tokenEndpointAuthMethods: seq<string>,
    issuer: Option<string>,
    issParameterSupported: bool,
    supportsCimd: bool,
    resource: Option<string>)

  datatype AuthMethodError =
    | NoPublicClients
    | OnlyUnsupportedMethods
    | RegisteredPublicWithSecret
    | RegisteredConfidentialWithoutSecret
    | RegisteredUnsupported

  datatype McpConfigError = Auth(auth: AuthMethodError) | Invalid(config: ConfigError)

  /** The methods the library can perform for a confidential client, most preferred first. */
  const CONFIDENTIAL_AUTH_METHODS := [CLIENT_SECRET_POST, CLIENT_SECRET_BASIC]

  function HonorRegisteredAuthMethod(registered: string, secret: Option<string>): Result<string, AuthMethodError>
  {
    if registered == NONE then
      if secret.Some? then Err(RegisteredPublicWithSecret) else Ok(NONE)
    else if registered in CONFIDENTIAL_AUTH_METHODS then
      if secret.None? then Err(RegisteredConfidentialWithoutSecret) else Ok(registered)
    else Err(RegisteredUnsupported)
  }

  function FirstAdvertised(methods: seq<string>, advertised: seq<string>): Option<string>
  {
    if methods == [] then None
    else if methods[0] in advertised then Some(methods[0])
    else FirstAdvertised(methods[1..], advertised)
  }

  function SelectAuthMethod(secret: Option<string>, advertised: seq<string>, registered: Option<string>)
    : Result<string, AuthMethodError>
  {
    if registered.Some? then HonorRegisteredAuthMethod(registered.value, secret)
    else if secret.None? then
      if advertised != [] && NONE !in advertised then Err(NoPublicClients) else Ok(NONE)
    else if advertised == [] then Ok(CLIENT_SECRET_BASIC)
    else
      match FirstAdvertised(CONFIDENTIAL_AUTH_METHODS, advertised)
      case Some(authMethod) => Ok(authMethod)
      case None => Err(OnlyUnsupportedMethods)
  }

  /** `client_secret` may be a `str` or a `SecretStr`; both are the secret's text here. */
  function ToProviderConfig(
    metadata: ServerMetadata,
    clientId: string,
    clientSecret: Option<string>,
    registered: Option<string>,
    scopes: seq<string>,
    redirectUri: Option<string>,
    resource: Option<string>,
    hasScheme: string -> bool): Result<ProviderConfig, McpConfigError>
  {
    var methods := metadata.codeChallengeMethods;
    var usePkce := if methods != [] then "S256" in methods else true;
    match SelectAuthMethod(clientSecret, metadata.tokenEndpointAuthMethods, registered)
    case Err(error) => Err(Auth(error))
    case Ok(authMethod) =>
      var config := ProviderConfig(
        clientId, clientSecret, metadata.authorizeUrl, metadata.tokenUrl, metadata.revocationUrl, redirectUri,
        scopes, ' ', usePkce, authMethod, [], map[], metadata.issuer, metadata.issParameterSupported,
        if resource.Some? then resource else metadata.resource);
      match Validated(config, hasScheme)
      case Err(error) => Err(Invalid(error))
      case Ok(valid) => Ok(valid)
  }

  /** The methods a client may end up with: a registered one is asserted, otherwise any advertised one. */
  ghost predicate Offered(advertised: seq<string>, registered: Option<string>, authMethod: string)
  {
    match registered
    case Some(asserted) => authMethod == asserted
    case None => advertised == [] || authMethod in advertised
  }

  /** A method this client can perform: public without a secret, confidential with one. */
  ghost predicate Performable(secret: Option<string>, authMethod: string)
  {
    if secret.None? then authMethod == NONE else authMethod == CLIENT_SECRET_POST || authMethod == CLIENT_SECRET_BASIC
  }

  /** The error of a failed selection tells which side could not be met. */
  ghost predicate Explains(error: AuthMethodError, secret: Option<string>, registered: Option<string>)
  {
    match registered
    case None => error == if secret.None? then NoPublicClients else OnlyUnsupportedMethods
    case Some("none") => secret.Some? && error == RegisteredPublicWithSecret
    case Some(asserted) =>
      if asserted == CLIENT_SECRET_POST || asserted == CLIENT_SECRET_BASIC
      then secret.None? && error == RegisteredConfidentialWithoutSecret
      else error == RegisteredUnsupported
  }

  lemma FirstOfTwo(advertised: seq<string>)
    ensures FirstAdvertised(CONFIDENTIAL_AUTH_METHODS, advertised)
            == if CLIENT_SECRET_POST in advertised then Some(CLIENT_SECRET_POST)
               else if CLIENT_SECRET_BASIC in advertised then Some(CLIENT_SECRET_BASIC)
               else None
  {
    assert CONFIDENTIAL_AUTH_METHODS[1..] == [CLIENT_SECRET_BASIC];
    assert FirstAdvertised([CLIENT_SECRET_BASIC], advertised)
        == if CLIENT_SECRET_BASIC in advertised then Some(CLIENT_SECRET_BASIC)
           else FirstAdvertised([CLIENT_SECRET_BASIC][1..], advertised);
  }

  /**
   * Selection succeeds exactly when some offered method can be performed, and then it selects
   * such a method. Of two it prefers `client_secret_post`, unless the server advertises nothing.
   */
  lemma SelectsExactly(secret: Option<string>, advertised: seq<string>, registered: Option<string>)
    ensures var selected := SelectAuthMethod(secret, advertised, registered);
            && (selected.Ok? <==>
                  exists authMethod :: Offered(advertised, registered, authMethod) && Performable(secret, authMethod))
            && (selected.Ok? ==> Offered(advertised, registered, selected.value) && Performable(secret, selected.value))
            && (selected.Ok? && selected.value == CLIENT_SECRET_BASIC && registered.None? && advertised != []
                ==> CLIENT_SECRET_POST !in advertised)
            && (secret.Some? && registered.None? && advertised == [] ==> selected == Ok(CLIENT_SECRET_BASIC))
            && (selected.Err? ==> Explains(selected.error, secret, registered))
  {
    var selected := SelectAuthMethod(secret, advertised, registered);
    FirstOfTwo(advertised);
    if selected.Ok? {
      assert Offered(advertised, registered, selected.value) && Performable(secret, selected.value);
    }
  }

  /** Neither the order of the advertised list nor repetition in it matters. */
  lemma SelectionIgnoresOrder(secret: Option<string>, a: seq<string>, b: seq<string>, registered: Option<string>)
    requires forall authMethod :: authMethod in a <==> authMethod in b
    ensures SelectAuthMethod(secret, a, registered) == SelectAuthMethod(secret, b, registered)
  {
    assert a != [] ==> a[0] in b;
    assert b != [] ==> b[0] in a;
    FirstOfTwo(a);
    FirstOfTwo(b);
  }

  /**
   * A selected method never contradicts the secret: the only validator that can still refuse
   * the configuration is the one on the resource indicator.
   */
  lemma SelectedMethodIsValid(
    metadata: ServerMetadata, clientId: string, secret: Option<string>, registered: Option<string>,
    scopes: seq<string>, redirectUri: Option<string>, resource: Option<string>, hasScheme: string -> bool)
    ensures var built := ToProviderConfig(
                metadata, clientId, secret, registered, scopes, redirectUri, resource, hasScheme);
            var effective := if resource.Some? then resource else metadata.resource;
            && (built.Ok? <==>
                  SelectAuthMethod(secret, metadata.tokenEndpointAuthMethods, registered).Ok?
                  && (effective.Some? ==> '#' !in effective.value && hasScheme(effective.value)))
            && (built.Ok? ==>
                  && Validated(built.value, hasScheme) == Ok(built.value)
                  && (built.value.tokenEndpointAuthMethod == NONE <==> secret.None?)
                  && (BasicAuth(built.value).None? <==> secret.None?)
                  && built.value.resource == effective)
  {
    SelectsExactly(secret, metadata.tokenEndpointAuthMethods, registered);
    var built := ToProviderConfig(metadata, clientId, secret, registered, scopes, redirectUri, resource, hasScheme);
    if built.Ok? {
      ValidConfigPresentsCredential(built.value, hasScheme);
    }
  }

  /** The built configuration is made of the metadata, the client's identity and the selected method. */
  lemma BuiltConfigIsBound(
    metadata: ServerMetadata, clientId: string, secret: Option<string>, registered: Option<string>,
    scopes: seq<string>, redirectUri: Option<string>, resource: Option<string>, hasScheme: string -> bool,
    iss: Option<string>)
    requires ToProviderConfig(metadata, clientId, secret, registered, scopes, redirectUri, resource, hasScheme).Ok?
    ensures var config :=
              ToProviderConfig(metadata, clientId, secret, registered, scopes, redirectUri, resource, hasScheme).value;
            && (metadata.issuer.Some? && metadata.issParameterSupported
                ==> (IssuerAccepted(config, iss) <==> iss == metadata.issuer))
            && (metadata.issuer.Some? && !metadata.issParameterSupported
                ==> (IssuerAccepted(config, iss) <==> iss.None? || iss == metadata.issuer))
            && (metadata.issuer.None? ==> IssuerAccepted(config, iss))
            && (config.usePkce <==> metadata.codeChallengeMethods == [] || "S256" in metadata.codeChallengeMethods)
            && config.authorizeUrl == metadata.authorizeUrl && config.tokenUrl == metadata.tokenUrl
            && config.revocationUrl == metadata.revocationUrl && config.redirectUri == redirectUri
            && config.clientId == clientId && config.clientSecret == secret && config.scopes == scopes
            && Ok(config.tokenEndpointAuthMethod)
               == SelectAuthMethod(secret, metadata.tokenEndpointAuthMethods, registered)
            && config.issuer == metadata.issuer && config.requireIss == metadata.issParameterSupported
            && config.resource == (if resource.Some? then resource else metadata.resource)
            && config.scopeSeparator == ' ' && config.extraParams == [] && config.implicitScopes == map[]
  {
  }
}
