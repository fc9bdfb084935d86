/** Provider configuration, its validators and the issuer check (models.py). */
module ProviderConfigs {
  import opened Wrappers
  import opened Scopes

  const CLIENT_SECRET_POST := "client_secret_post"
  const CLIENT_SECRET_BASIC := "client_secret_basic"
  const NONE := "none"

  /** The fields the authorization-code flow reads. Parameters keep the order they were given in. */
  datatype ProviderConfig = ProviderConfig(
    clientId: string,
    clientSecret: Option<string>,
    authorizeUrl: string,
    tokenUrl: string,
    revocationUrl: Option<string>,
    redirectUri: Option<string>,
    scopes: seq<string>,
    scopeSeparator: char,
    usePkce: bool,
    tokenEndpointAuthMethod: string,
    extraParams: seq<(string, string)>,
    implicitScopes: ScopeMap,
    issuer: Option<string>,
    requireIss: bool,
    resource: Option<string>)

  datatype ConfigError =
    | PublicClientWithSecret
    | ConfidentialClientWithoutSecret
    | ResourceHasFragment
    | ResourceNotAbsolute

  /** `_client_secret_presence_matches_auth_method`. */
  function CheckSecret(config: ProviderConfig): Option<ConfigError>
  {
    var isPublic := config.tokenEndpointAuthMethod == NONE;
    if isPublic && config.clientSecret.Some? then Some(PublicClientWithSecret)
    else if !isPublic && config.clientSecret.None? then Some(ConfidentialClientWithoutSecret)
    else None
  }

  /** `_resource_is_absolute_uri`; `hasScheme` is what `urlparse` finds. */
  function CheckResource(config: ProviderConfig, hasScheme: string -> bool): Option<ConfigError>
  {
    if config.resource.None? then None
    else if '#' in config.resource.value then Some(ResourceHasFragment)
    else if !hasScheme(config.resource.value) then Some(ResourceNotAbsolute)
    else None
  }

  /** A model is built only if both validators accept it. */
  function Validated(config: ProviderConfig, hasScheme: string -> bool): Result<ProviderConfig, ConfigError>
  {
    match CheckSecret(config)
    case Some(error) => Err(error)
    case None =>
      match CheckResource(config, hasScheme)
      case Some(error) => Err(error)
      case None => Ok(config)
  }

  function BasicAuth(config: ProviderConfig): Option<(string, string)>
  {
    if config.tokenEndpointAuthMethod == NONE then None
    else if config.clientSecret.None? then None
    else Some((config.clientId, config.clientSecret.value))
  }

  /** `validate_issuer`: whether the authorization response's `iss` is let through. */
  predicate IssuerAccepted(config: ProviderConfig, iss: Option<string>)
  {
    match config.issuer
    case None => true
    case Some(issuer) =>
      match iss
      case None => !config.requireIss
      case Some(received) => received == issuer
  }

  /** Let through: without a known issuer anything, otherwise that issuer, or nothing where nothing is required. */
  lemma IssuerAcceptedExactly(config: ProviderConfig, iss: Option<string>)
    ensures IssuerAccepted(config, iss)
            <==> config.issuer.None? || iss == config.issuer || (iss.None? && !config.requireIss)
  {
  }

  /** Which configurations are refused, and with which error. */
  lemma RefusedExactly(config: ProviderConfig, hasScheme: string -> bool)
    ensures var validated := Validated(config, hasScheme);
            && (validated == Err(PublicClientWithSecret)
                <==> config.tokenEndpointAuthMethod == "none" && config.clientSecret.Some?)
            && (validated == Err(ConfidentialClientWithoutSecret)
                <==> config.tokenEndpointAuthMethod != "none" && config.clientSecret.None?)
            && (validated == Ok(config)
                <==> (config.tokenEndpointAuthMethod == "none" <==> config.clientSecret.None?)
                     && forall resource :: config.resource == Some(resource) ==>
                                             '#' !in resource && hasScheme(resource))
            && (validated.Ok? ==> validated.value == config)
            && (validated == Err(ResourceHasFragment) ==> config.resource.Some? && '#' in config.resource.value)
            && (validated == Err(ResourceNotAbsolute) ==> config.resource.Some? && !hasScheme(config.resource.value))
  {
  }

  /** In a validated config the declared method alone tells whether a credential is presented. */
  lemma ValidConfigPresentsCredential(config: ProviderConfig, hasScheme: string -> bool)
    requires Validated(config, hasScheme).Ok?
    ensures BasicAuth(config).None? <==> config.tokenEndpointAuthMethod == NONE
    ensures BasicAuth(config).Some? <==> config.clientSecret.Some?
    ensures config.clientSecret.Some? ==> BasicAuth(config) == Some((config.clientId, config.clientSecret.value))
  {
  }
}
