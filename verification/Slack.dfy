/** The Slack preset, and how the identity handler reads it back (providers/slack.py). */
module Slack {
  import opened Wrappers
  import opened Texts
  import opened Scopes
  import opened ProviderConfigs
  import opened QueryStrings
  import opened Client
  import HostMatch

  const SCOPE_SEPARATOR := ','
  const HOST_SUFFIX := ".slack.com"

  datatype PresetError = NoScopes

  /** A configuration, and the scope families of which at least one must be requested. */
  datatype Preset = Preset(config: ProviderConfig, requiredScopeFamilies: seq<seq<string>>)

  /** `params.get(key, default)`, on the pairs of a dictionary. */
  function GetParam(params: Pairs, key: string, default: string): string
  {
    var values := Values(params, key);
    if values == [] then default else values[0]
  }

  /** `params[key] = value`. */
  function PutParam(params: Pairs, key: string, value: string): Pairs
  {
    Flatten(Put(Singletons(params), key, [value]))
  }

  lemma {:induction false} FlattenSingletons(params: Pairs)
    ensures Flatten(Singletons(params)) == params
  {
    if params != [] {
      var (key, value) := params[0];
      assert Singletons(params)[1..] == Singletons(params[1..]);
      FlattenSingletons(params[1..]);
      assert [value][1..] == [] && PairsOf(key, [value]) == [(key, value)];
    }
  }

  lemma PutParamGives(params: Pairs, key: string, value: string, k: string)
    requires IsDict(Singletons(params))
    ensures Values(PutParam(params, key, value), k) == if k == key then [value] else Values(params, k)
  {
    var dict := Singletons(params);
    PutIsDict(dict, key, [value]);
    PutGives(dict, key, [value], k);
    ValuesFlatten(Put(dict, key, [value]), k);
    ValuesFlatten(dict, k);
    FlattenSingletons(params);
  }

  ghost predicate IsSingle(dict: Dict)
  {
    forall i :: 0 <= i < |dict| ==> |dict[i].1| == 1
  }

  lemma {:induction false} PutIsSingle(dict: Dict, key: string, value: string)
    requires IsSingle(dict)
    ensures IsSingle(Put(dict, key, [value]))
  {
    if dict != [] && dict[0].0 != key {
      PutIsSingle(dict[1..], key, value);
    }
  }

  lemma {:induction false} SingletonsFlatten(dict: Dict)
    requires IsSingle(dict)
    ensures Singletons(Flatten(dict)) == dict
  {
    if dict != [] {
      var (key, values) := dict[0];
      assert IsSingle(dict[1..]) && values == [values[0]] && values[1..] == [];
      SingletonsFlatten(dict[1..]);
      assert PairsOf(key, values) == [(key, values[0])];
      assert Flatten(dict) == [(key, values[0])] + Flatten(dict[1..]);
    }
  }

  /** The dictionary with one more key is a dictionary again. */
  lemma PutParamIsDict(params: Pairs, key: string, value: string)
    requires IsDict(Singletons(params))
    ensures IsDict(Singletons(PutParam(params, key, value)))
  {
    PutIsDict(Singletons(params), key, [value]);
    PutIsSingle(Singletons(params), key, value);
    SingletonsFlatten(Put(Singletons(params), key, [value]));
  }

  /** The client's identity is carried over, and the endpoints are Slack's. */
  predicate PointsAtSlack(config: ProviderConfig, clientId: string, redirectUri: Option<string>)
  {
    && config.clientId == clientId && config.redirectUri == redirectUri && config.usePkce && config.issuer.None?
    && config.authorizeUrl == "https://slack.com/oauth/v2/authorize"
    && config.tokenUrl == "https://slack.com/api/oauth.v2.access"
    && config.revocationUrl == Some("https://slack.com/api/auth.revoke")
  }

  /** What a preset is for: its scopes, and its parameters. */
  ghost predicate IsPresetFor(
    preset: Preset, clientSecret: string, scopes: seq<string>, userScopes: seq<string>, extraParams: Pairs)
  {
    && preset.config.scopes == scopes && preset.config.scopeSeparator == SCOPE_SEPARATOR
    && preset.config.clientSecret == Some(clientSecret) && CheckSecret(preset.config).None?
    && forall key, default :: GetParam(preset.config.extraParams, key, default)
         == if key == "user_scope" && userScopes != [] then Join(userScopes, SCOPE_SEPARATOR)
            else GetParam(extraParams, key, default)
  }

  /**
   * `preset`: user scopes travel in a parameter of their own, joined like the bot scopes. The extra
   * parameters are the pairs of a dictionary, and so are those of the configuration.
   */
  method MakePreset(
    clientId: string, clientSecret: string, scopes: seq<string>, userScopes: seq<string>,
    redirectUri: Option<string>, extraParams: Pairs)
    returns (r: Result<Preset, PresetError>)
    requires IsDict(Singletons(extraParams))
    ensures r.Err? <==> scopes == [] && userScopes == []
    ensures r.Ok? ==> IsPresetFor(r.value, clientSecret, scopes, userScopes, extraParams)
    ensures r.Ok? ==> PointsAtSlack(r.value.config, clientId, redirectUri) && IsConfig(r.value.config)
    ensures r.Ok? ==> r.value.requiredScopeFamilies
                      == (if scopes != [] then [scopes] else []) + (if userScopes != [] then [userScopes] else [])
  {
    if scopes == [] && userScopes == [] {
      return Err(NoScopes);
    }
    var mergedExtra := extraParams;
    if userScopes != [] {
      var joined := Join(userScopes, SCOPE_SEPARATOR);
      mergedExtra := PutParam(mergedExtra, "user_scope", joined);
      PutParamIsDict(extraParams, "user_scope", joined);
      forall key
        ensures Values(mergedExtra, key) == if key == "user_scope" then [joined] else Values(extraParams, key)
      {
        PutParamGives(extraParams, "user_scope", joined, key);
      }
    }
    var families: seq<seq<string>> := [];
    if scopes != [] {
      families := families + [scopes];
    }
    if userScopes != [] {
      families := families + [userScopes];
    }
    var config := ProviderConfig(
      clientId, Some(clientSecret), "https://slack.com/oauth/v2/authorize", "https://slack.com/api/oauth.v2.access",
      Some("https://slack.com/api/auth.revoke"), redirectUri, scopes, SCOPE_SEPARATOR, true, CLIENT_SECRET_POST,
      mergedExtra, map[], None, false, None);
    r := Ok(Preset(config, families));
  }

  ghost predicate NamesOpenid(text: string, ws: char -> bool)
  {
    exists part :: part in Split(text, SCOPE_SEPARATOR) && Strip(part, ws) == "openid"
  }

  /** `_has_openid_scope`: among the bot scopes, or among the parts of the user-scope parameter. */
  predicate HasOpenidScope(config: ProviderConfig, ws: char -> bool)
  {
    || "openid" in config.scopes
    || exists part :: part in Split(GetParam(config.extraParams, "user_scope", ""), SCOPE_SEPARATOR)
                      && Strip(part, ws) == "openid"
  }

  /** Joining scopes hides and invents no mention of `openid`. */
  lemma JoinNamesOpenid(scopes: seq<string>, ws: char -> bool)
    requires scopes != []
    ensures NamesOpenid(Join(scopes, SCOPE_SEPARATOR), ws)
            <==> exists scope :: scope in scopes && NamesOpenid(scope, ws)
  {
    SplitJoin(scopes, SCOPE_SEPARATOR);
    forall part
      ensures part in Split(Join(scopes, SCOPE_SEPARATOR), SCOPE_SEPARATOR)
              <==> exists scope :: scope in scopes && part in Split(scope, SCOPE_SEPARATOR)
    {
      InSplitAll(scopes, SCOPE_SEPARATOR, part);
    }
    if scope :| scope in scopes && NamesOpenid(scope, ws) {
      var part :| part in Split(scope, SCOPE_SEPARATOR) && Strip(part, ws) == "openid";
      assert part in Split(Join(scopes, SCOPE_SEPARATOR), SCOPE_SEPARATOR);
    }
    if NamesOpenid(Join(scopes, SCOPE_SEPARATOR), ws) {
      var part :| part in Split(Join(scopes, SCOPE_SEPARATOR), SCOPE_SEPARATOR) && Strip(part, ws) == "openid";
      var scope :| scope in scopes && part in Split(scope, SCOPE_SEPARATOR);
      assert NamesOpenid(scope, ws);
    }
  }

  /**
   * The handler's branch follows what the caller of the preset asked for: `openid` as a bot
   * scope or in one of the user scopes, or, when none were given, in the caller's own parameter.
   */
  lemma PresetRoutesOpenid(
    preset: Preset, clientSecret: string, scopes: seq<string>, userScopes: seq<string>, extraParams: Pairs,
    ws: char -> bool)
    requires IsPresetFor(preset, clientSecret, scopes, userScopes, extraParams)
    ensures HasOpenidScope(preset.config, ws)
            <==> "openid" in scopes
                 || (if userScopes != [] then exists scope :: scope in userScopes && NamesOpenid(scope, ws)
                     else NamesOpenid(GetParam(extraParams, "user_scope", ""), ws))
  {
    if userScopes != [] {
      JoinNamesOpenid(userScopes, ws);
    }
  }

  /** For user scopes free of commas and surrounding space, that is membership. */
  lemma CleanUserScopes(scopes: seq<string>, ws: char -> bool)
    requires scopes != [] && forall scope :: scope in scopes ==> IsCleanScope(scope, SCOPE_SEPARATOR, ws)
    ensures NamesOpenid(Join(scopes, SCOPE_SEPARATOR), ws) <==> "openid" in scopes
  {
    JoinNamesOpenid(scopes, ws);
    forall scope | scope in scopes ensures NamesOpenid(scope, ws) <==> scope == "openid" {
      SplitWithout(scope, SCOPE_SEPARATOR);
      assert IsCleanScope(scope, SCOPE_SEPARATOR, ws);
      assert scope in [scope];
    }
  }

  /** `_parse_team_domain_from_url`, given the URL's host. */
  function ParseTeamDomain(host: Option<string>): Option<string>
  {
    if host.None? || host.value == "" || !EndsWith(host.value, HOST_SUFFIX) then None
    else
      var team := host.value[..|host.value| - |HOST_SUFFIX|];
      if team == "" || '.' in team then None else Some(team)
  }

  /** The suffix and a dot before it are the separator and the two labels of slack.com. */
  lemma SlackLabels() returns (domain: string)
    ensures HOST_SUFFIX == ['.'] + domain && Split(domain, '.') == ["slack", "com"]
  {
    domain := "slack" + ['.'] + "com";
    SplitWithout("slack", '.');
    SplitWithout("com", '.');
    SplitConcat("slack", '.', "com");
  }

  lemma LabelsOfTeamHost(team: string)
    requires '.' !in team
    ensures HostMatch.Labels(team + HOST_SUFFIX) == [team, "slack", "com"]
  {
    var domain := SlackLabels();
    SplitWithout(team, '.');
    SplitConcat(team, '.', domain);
    assert team + HOST_SUFFIX == team + ['.'] + domain;
    assert [team] + ["slack", "com"] == [team, "slack", "com"];
  }

  /** A team domain is read exactly from hosts of three labels under slack.com, the first not empty. */
  lemma TeamDomainExactly(host: string, team: string)
    ensures ParseTeamDomain(Some(host)) == Some(team)
            <==> team != "" && HostMatch.Labels(host) == [team, "slack", "com"]
  {
    if ParseTeamDomain(Some(host)) == Some(team) {
      EndsWithConcat(host, HOST_SUFFIX);
      assert host == team + HOST_SUFFIX;
      LabelsOfTeamHost(team);
    }
    if team != "" && HostMatch.Labels(host) == [team, "slack", "com"] {
      assert team in Split(host, '.');
      JoinSplit(host, '.');
      LabelsOfTeamHost(team);
      JoinSplit(team + HOST_SUFFIX, '.');
      EndsWithConcat(host, HOST_SUFFIX);
      assert host[..|host| - |HOST_SUFFIX|] == team;
    }
  }
}
