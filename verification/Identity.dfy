/** Inferring the identity handler from the built-in providers (providers/identity.py). */
module Identity {
  import opened Wrappers
  import opened Texts
  import opened HostMatch
  import opened Sorting

  /** A provider's registration; its resolver matches both OAuth hosts against the provider's suffixes. */
  datatype Registration = Registration(provider: string, suffixes: seq<string>)

  datatype InferenceError = Ambiguous(providers: seq<string>)

  predicate Resolves(registration: Registration, authorizeHost: string, tokenHost: string)
  {
    OAuthHostsMatch(authorizeHost, tokenHost, registration.suffixes)
  }

  /** Each of the two hosts is, label by label, under a suffix of the registration. */
  ghost predicate Accepts(registration: Registration, authorizeHost: string, tokenHost: string)
  {
    IsUnder(authorizeHost, registration.suffixes) && IsUnder(tokenHost, registration.suffixes)
  }

  function Matching(registrations: seq<Registration>, authorizeHost: string, tokenHost: string): seq<string>
  {
    if registrations == [] then []
    else
      var rest := Matching(registrations[1..], authorizeHost, tokenHost);
      if Resolves(registrations[0], authorizeHost, tokenHost) then [registrations[0].provider] + rest else rest
  }

  lemma {:induction false} MatchingConcat(
    a: seq<Registration>, b: seq<Registration>, authorizeHost: string, tokenHost: string)
    ensures Matching(a + b, authorizeHost, tokenHost)
            == Matching(a, authorizeHost, tokenHost) + Matching(b, authorizeHost, tokenHost)
  {
    if a == [] {
      assert a + b == b;
    } else {
      assert (a + b)[1..] == a[1..] + b;
      MatchingConcat(a[1..], b, authorizeHost, tokenHost);
    }
  }

  /** No suffix of one provider is a suffix, on label boundaries, of another provider's. */
  ghost predicate Incomparable(a: Registration, b: Registration)
  {
    forall s, t :: s in a.suffixes && t in b.suffixes ==> !MatchesOne(s, t) && !MatchesOne(t, s)
  }

  ghost predicate PairwiseIncomparable(registrations: seq<Registration>)
  {
    forall i, j :: 0 <= i < j < |registrations| ==> Incomparable(registrations[i], registrations[j])
  }

  lemma IncomparableDoNotBothResolve(a: Registration, b: Registration, authorizeHost: string, tokenHost: string)
    requires Incomparable(a, b) && Resolves(a, authorizeHost, tokenHost)
    ensures !Resolves(b, authorizeHost, tokenHost)
  {
    if Resolves(b, authorizeHost, tokenHost) {
      var s :| s in a.suffixes && MatchesOne(tokenHost, s);
      var t :| t in b.suffixes && MatchesOne(tokenHost, t);
      SuffixesOfOneHost(tokenHost, s, t);
    }
  }

  lemma {:induction false} NoneMatches(registrations: seq<Registration>, authorizeHost: string, tokenHost: string)
    requires forall i :: 0 <= i < |registrations| ==> !Resolves(registrations[i], authorizeHost, tokenHost)
    ensures Matching(registrations, authorizeHost, tokenHost) == []
  {
    if registrations != [] {
      NoneMatches(registrations[1..], authorizeHost, tokenHost);
    }
  }

  /** Incomparable tables are never ambiguous, on any pair of hosts. */
  lemma {:induction false} AtMostOneMatches(registrations: seq<Registration>, authorizeHost: string, tokenHost: string)
    requires PairwiseIncomparable(registrations)
    ensures |Matching(registrations, authorizeHost, tokenHost)| <= 1
  {
    if registrations != [] {
      AtMostOneMatches(registrations[1..], authorizeHost, tokenHost);
      if Resolves(registrations[0], authorizeHost, tokenHost) {
        forall i | 0 <= i < |registrations[1..]| ensures !Resolves(registrations[1..][i], authorizeHost, tokenHost) {
          IncomparableDoNotBothResolve(registrations[0], registrations[i + 1], authorizeHost, tokenHost);
        }
        NoneMatches(registrations[1..], authorizeHost, tokenHost);
      }
    }
  }

  lemma {:induction false} MatchingIsExact(
    registrations: seq<Registration>, authorizeHost: string, tokenHost: string, provider: string)
    ensures provider in Matching(registrations, authorizeHost, tokenHost)
            <==> exists i :: 0 <= i < |registrations| && registrations[i].provider == provider
                             && Accepts(registrations[i], authorizeHost, tokenHost)
  {
    if registrations != [] {
      HostsMatchExactly(authorizeHost, tokenHost, registrations[0].suffixes);
      MatchingIsExact(registrations[1..], authorizeHost, tokenHost, provider);
      forall i | 0 <= i < |registrations[1..]| ensures registrations[1..][i] == registrations[i + 1] {
      }
    }
  }

  // -----  The built-in providers  -----

  const BUILT_IN: seq<Registration> := [
    Registration("atlassian", ["auth.atlassian.com"]),
    Registration("github", ["github.com"]),
    Registration("google", ["google.com", "googleapis.com"]),
    Registration("hubspot", ["api.hubapi.com", "app.hubspot.com"]),
    Registration("linear", ["linear.app"]),
    Registration("microsoft", ["login.microsoftonline.com"]),
    Registration("notion", ["api.notion.com"]),
    Registration("salesforce", ["salesforce.com"]),
    Registration("slack", ["slack.com"]),
    Registration("typeform", ["api.typeform.com"])
  ]

  /** Two characters near the end of a host, which tell the built-in suffixes apart. */
  function Mark(host: string): (char, char)
  {
    if |host| < 6 then (' ', ' ') else (host[|host| - 6], host[|host| - 5])
  }

  /** The provider a mark belongs to, by its place among the built-in ones. */
  function Owner(mark: (char, char)): int
  {
    match mark.0
    case 'a' => if mark.1 == 'n' then 0 else 4
    case 'u' => 1
    case 'l' => 2
    case 'i' => 2
    case 'p' => 3
    case 'o' => if mark.1 == 't' then 3 else 6
    case 'n' => 5
    case 'c' => if mark.1 == 'e' then 7 else 8
    case 'r' => 9
    case _ => -1
  }

  lemma BuiltInMarks(i: nat, suffix: string)
    requires i < |BUILT_IN| && suffix in BUILT_IN[i].suffixes
    ensures |suffix| >= 6 && Owner(Mark(suffix)) == i
  {
  }

  lemma MatchKeepsMark(host: string, suffix: string)
    requires MatchesOne(host, suffix) && |suffix| >= 6
    ensures Mark(host) == Mark(suffix)
  {
    if host != suffix {
      EndsWithConcat(host, "." + suffix);
      var front :| host == front + ("." + suffix);
    }
  }

  lemma BuiltInsDoNotMatch(i: nat, j: nat, s: string, t: string)
    requires i < |BUILT_IN| && j < |BUILT_IN| && i != j && s in BUILT_IN[i].suffixes && t in BUILT_IN[j].suffixes
    ensures !MatchesOne(s, t)
  {
    BuiltInMarks(i, s);
    BuiltInMarks(j, t);
    if MatchesOne(s, t) {
      MatchKeepsMark(s, t);
    }
  }

  lemma BuiltInTablesAreIncomparable()
    ensures PairwiseIncomparable(BUILT_IN)
  {
    forall i, j | 0 <= i < j < |BUILT_IN| ensures Incomparable(BUILT_IN[i], BUILT_IN[j]) {
      forall s, t | s in BUILT_IN[i].suffixes && t in BUILT_IN[j].suffixes
        ensures !MatchesOne(s, t) && !MatchesOne(t, s)
      {
        BuiltInsDoNotMatch(i, j, s, t);
        BuiltInsDoNotMatch(j, i, t, s);
      }
    }
  }

  ghost predicate DistinctProviders(registrations: seq<Registration>)
  {
    forall i, j :: 0 <= i < j < |registrations| ==> registrations[i].provider != registrations[j].provider
  }

  lemma BuiltInProvidersDiffer()
    ensures DistinctProviders(BUILT_IN)
  {
  }

  lemma InAtMostOne(list: seq<string>, x: string)
    requires |list| <= 1
    ensures x in list <==> list == [x]
  {
    assert list == [] || list == [list[0]];
  }

  /** The one provider that matches is the one inferred. */
  lemma TheMatchIsInferred(registrations: seq<Registration>, authorizeHost: string, tokenHost: string, i: nat)
    requires PairwiseIncomparable(registrations) && DistinctProviders(registrations) && i < |registrations|
    ensures Accepts(registrations[i], authorizeHost, tokenHost)
            <==> Matching(registrations, authorizeHost, tokenHost) == [registrations[i].provider]
  {
    var provider := registrations[i].provider;
    AtMostOneMatches(registrations, authorizeHost, tokenHost);
    MatchingIsExact(registrations, authorizeHost, tokenHost, provider);
    InAtMostOne(Matching(registrations, authorizeHost, tokenHost), provider);
    if Matching(registrations, authorizeHost, tokenHost) == [provider] {
      var k :| 0 <= k < |registrations| && registrations[k].provider == provider
               && Accepts(registrations[k], authorizeHost, tokenHost);
      assert k == i;
    }
  }

  lemma UnambiguousOver(registrations: seq<Registration>, authorizeHost: string, tokenHost: string)
    requires PairwiseIncomparable(registrations) && DistinctProviders(registrations)
    ensures var matching := Matching(registrations, authorizeHost, tokenHost);
            && |matching| <= 1
            && forall i :: 0 <= i < |registrations| ==>
                 (Accepts(registrations[i], authorizeHost, tokenHost) <==> matching == [registrations[i].provider])
  {
    AtMostOneMatches(registrations, authorizeHost, tokenHost);
    forall i | 0 <= i < |registrations|
      ensures Accepts(registrations[i], authorizeHost, tokenHost)
              <==> Matching(registrations, authorizeHost, tokenHost) == [registrations[i].provider]
    {
      TheMatchIsInferred(registrations, authorizeHost, tokenHost, i);
    }
  }

  /** Inference over the built-in providers is never ambiguous, and finds whichever provider matches. */
  lemma BuiltInInferenceIsUnambiguous(authorizeHost: string, tokenHost: string)
    ensures var matching := Matching(BUILT_IN, authorizeHost, tokenHost);
            && |matching| <= 1
            && forall i :: 0 <= i < |BUILT_IN| ==>
                 (Accepts(BUILT_IN[i], authorizeHost, tokenHost) <==> matching == [BUILT_IN[i].provider])
  {
    UnambiguousOver(BUILT_IN, authorizeHost, tokenHost) by {
      BuiltInTablesAreIncomparable();
      BuiltInProvidersDiffer();
    }
  }

  /** The built-in provider accepts both hosts. */
  ghost predicate IsTheMatch(provider: string, authorizeHost: string, tokenHost: string)
  {
    exists i :: 0 <= i < |BUILT_IN| && BUILT_IN[i].provider == provider
                && Accepts(BUILT_IN[i], authorizeHost, tokenHost)
  }

  /** `infer_identity_handler`, over any registrations. */
  method InferIdentityHandler(registrations: seq<Registration>, authorizeHost: string, tokenHost: string)
    returns (r: Result<Option<string>, InferenceError>)
    ensures var matching := Matching(registrations, authorizeHost, tokenHost);
            && (r.Err? <==> |matching| > 1)
            && (r.Err? ==> multiset(r.error.providers) == multiset(matching)
                           && IsOrdered(r.error.providers, (name: string) => name))
            && (r.Ok? ==> r.value == if matching == [] then None else Some(matching[0]))
    ensures PairwiseIncomparable(registrations) ==> r.Ok?
    ensures registrations == BUILT_IN ==>
              r.Ok? && forall provider :: r.value == Some(provider) <==> IsTheMatch(provider, authorizeHost, tokenHost)
  {
    var matches: seq<string> := [];
    for i := 0 to |registrations|
      invariant matches == Matching(registrations[..i], authorizeHost, tokenHost)
    {
      if Resolves(registrations[i], authorizeHost, tokenHost) {
        matches := matches + [registrations[i].provider];
      }
      assert registrations[..i + 1] == registrations[..i] + [registrations[i]];
      MatchingConcat(registrations[..i], [registrations[i]], authorizeHost, tokenHost);
    }
    assert registrations[..|registrations|] == registrations;
    if PairwiseIncomparable(registrations) {
      AtMostOneMatches(registrations, authorizeHost, tokenHost);
    }
    if registrations == BUILT_IN {
      BuiltInInferenceIsUnambiguous(authorizeHost, tokenHost);
      forall provider ensures provider in matches <==> IsTheMatch(provider, authorizeHost, tokenHost) {
        MatchingIsExact(BUILT_IN, authorizeHost, tokenHost, provider);
      }
    }
    if matches == [] {
      return Ok(None);
    }
    if |matches| > 1 {
      var providers := Sorted(matches, (name: string) => name);
      SortedIsOrdered(matches, (name: string) => name);
      return Err(Ambiguous(providers));
    }
    r := Ok(Some(matches[0]));
  }

  // -----  Collecting the registrations  -----

  /** What a provider module declares as its identity resolver. */
  datatype Declared = Nothing | NotARegistration | NotCallable | Declares(registration: Registration)

  datatype Module = Module(name: string, hasPreset: bool, declared: Declared)

  datatype RegistryError = BadDeclaration(name: string) | WrongProvider(name: string) | Duplicate(provider: string)

  /** The modules that take part: concrete providers that declare a resolver. */
  ghost predicate Participates(m: Module)
  {
    m.name != "__init__" && m.name != "identity" && !(m.name != "" && m.name[0] == '_')
    && m.hasPreset && !m.declared.Nothing?
  }

  ghost predicate IsSound(m: Module)
  {
    m.declared.Declares? && m.declared.registration.provider == m.name
  }

  ghost predicate AllSound(modules: seq<Module>)
  {
    forall m :: m in modules && Participates(m) ==> IsSound(m)
  }

  function NameOf(m: Module): string
  {
    m.name
  }

  function ProviderOf(registration: Registration): string
  {
    registration.provider
  }

  /** Module `i` is the first whose declaration is refused, and the error says why. */
  ghost predicate FirstUnsound(modules: seq<Module>, i: int, error: RegistryError)
  {
    && 0 <= i < |modules| && AllSound(modules[..i]) && Participates(modules[i]) && !IsSound(modules[i])
    && error == if modules[i].declared.Declares? then WrongProvider(modules[i].name)
                else BadDeclaration(modules[i].name)
  }

  /** Two participating modules with one name. */
  ghost predicate HasDuplicate(modules: seq<Module>)
  {
    exists i, j :: 0 <= i < j < |modules| && Participates(modules[i]) && Participates(modules[j])
                   && modules[i].name == modules[j].name
  }

  /** Some participating module declares the registration. */
  ghost predicate IsDeclared(modules: seq<Module>, registration: Registration)
  {
    exists m :: m in modules && Participates(m) && m.declared == Declares(registration)
  }

  /** The registrations come from the modules, one each, in order. */
  ghost predicate CollectedFrom(registrations: seq<Registration>, modules: seq<Module>)
  {
    && (forall registration :: registration in registrations <==> IsDeclared(modules, registration))
    && (DistinctProviders(registrations) <==> !HasDuplicate(modules))
  }

  lemma SameDuplicates(modules: seq<Module>, m: Module)
    requires forall i :: 0 <= i < |modules| && Participates(modules[i]) && Participates(m) ==> modules[i].name != m.name
    ensures HasDuplicate(modules + [m]) <==> HasDuplicate(modules)
  {
    var all := modules + [m];
    if HasDuplicate(modules) {
      var i, j :| 0 <= i < j < |modules| && Participates(modules[i]) && Participates(modules[j])
                  && modules[i].name == modules[j].name;
      assert all[i] == modules[i] && all[j] == modules[j];
    }
  }

  lemma CollectOne(registrations: seq<Registration>, modules: seq<Module>, m: Module)
    requires CollectedFrom(registrations, modules) && AllSound(modules) && Participates(m) && IsSound(m)
    ensures CollectedFrom(registrations + [m.declared.registration], modules + [m])
    ensures AllSound(modules + [m])
  {
    var more, all := registrations + [m.declared.registration], modules + [m];
    forall x ensures x in more <==> IsDeclared(all, x) {
      if x in registrations {
        var n :| n in modules && Participates(n) && n.declared == Declares(x);
        assert n in all;
      }
      assert m in all;
    }
    var taken := exists i :: 0 <= i < |modules| && Participates(modules[i]) && modules[i].name == m.name;
    if taken {
      var i :| 0 <= i < |modules| && Participates(modules[i]) && modules[i].name == m.name;
      assert modules[i] in modules && IsSound(modules[i]);
      assert modules[i].declared.registration in registrations;
      var k :| 0 <= k < |registrations| && registrations[k] == modules[i].declared.registration;
      assert more[k].provider == more[|registrations|].provider && !DistinctProviders(more);
      assert all[i].name == all[|modules|].name && HasDuplicate(all);
    } else {
      forall k | 0 <= k < |registrations| ensures registrations[k].provider != m.name {
        assert registrations[k] in registrations;
        var n :| n in modules && Participates(n) && n.declared == Declares(registrations[k]);
        assert IsSound(n);
      }
      assert DistinctProviders(more) <==> DistinctProviders(registrations) by {
        if DistinctProviders(more) {
          forall i, j | 0 <= i < j < |registrations| ensures registrations[i].provider != registrations[j].provider {
            assert more[i].provider != more[j].provider;
          }
        }
      }
      SameDuplicates(modules, m);
    }
  }

  lemma SkipOne(registrations: seq<Registration>, modules: seq<Module>, m: Module)
    requires CollectedFrom(registrations, modules) && AllSound(modules) && !Participates(m)
    ensures CollectedFrom(registrations, modules + [m]) && AllSound(modules + [m])
  {
    SameDuplicates(modules, m);
    forall x ensures x in registrations <==> IsDeclared(modules + [m], x) {
      if x in registrations {
        var n :| n in modules && Participates(n) && n.declared == Declares(x);
        assert n in modules + [m];
      }
    }
  }

  /** The first loop: check each declaration and collect what it declares. */
  method CollectRegistrations(modules: seq<Module>) returns (r: Result<seq<Registration>, RegistryError>)
    ensures r.Ok? <==> AllSound(modules)
    ensures r.Ok? ==> CollectedFrom(r.value, modules)
    ensures r.Err? ==> !r.error.Duplicate? && exists i :: FirstUnsound(modules, i, r.error)
  {
    var registrations: seq<Registration> := [];
    for i := 0 to |modules|
      invariant AllSound(modules[..i]) && CollectedFrom(registrations, modules[..i])
    {
      var m := modules[i];
      assert m in modules && modules[..i + 1] == modules[..i] + [m];
      var isInternal := m.name in {"__init__", "identity"} || (m.name != "" && m.name[0] == '_');
      if isInternal || !m.hasPreset || m.declared.Nothing? {
        SkipOne(registrations, modules[..i], m);
      } else {
        if !m.declared.Declares? {
          assert FirstUnsound(modules, i, BadDeclaration(m.name));
          return Err(BadDeclaration(m.name));
        }
        if m.declared.registration.provider != m.name {
          assert FirstUnsound(modules, i, WrongProvider(m.name));
          return Err(WrongProvider(m.name));
        }
        CollectOne(registrations, modules[..i], m);
        registrations := registrations + [m.declared.registration];
      }
    }
    assert modules[..|modules|] == modules;
    r := Ok(registrations);
  }

  /** Registration `i` is the first to repeat a provider. */
  ghost predicate FirstRepeat(registrations: seq<Registration>, i: int, provider: string)
  {
    && 0 <= i < |registrations| && registrations[i].provider == provider && DistinctProviders(registrations[..i])
    && exists k :: 0 <= k < i && registrations[k].provider == provider
  }

  /** The second loop: the first provider registered again. */
  method FindDuplicate(registrations: seq<Registration>) returns (provider: Option<string>)
    ensures provider.None? <==> DistinctProviders(registrations)
    ensures provider.Some? ==> exists i :: FirstRepeat(registrations, i, provider.value)
  {
    var seenProviders: set<string> := {};
    for i := 0 to |registrations|
      invariant seenProviders == set k | 0 <= k < i :: registrations[k].provider
      invariant forall j, k :: 0 <= j < k < i ==> registrations[j].provider != registrations[k].provider
    {
      if registrations[i].provider in seenProviders {
        assert FirstRepeat(registrations, i, registrations[i].provider);
        return Some(registrations[i].provider);
      }
      seenProviders := seenProviders + {registrations[i].provider};
    }
    provider := None;
  }

  lemma SameElements<T>(a: seq<T>, b: seq<T>)
    requires multiset(a) == multiset(b)
    ensures forall x :: x in a <==> x in b
  {
    assert forall x :: x in a <==> x in multiset(a);
    assert forall x :: x in b <==> x in multiset(b);
  }

  lemma {:induction false} TwoPlaces<T>(s: seq<T>, x: T)
    requires multiset(s)[x] >= 2
    ensures exists i, j :: 0 <= i < j < |s| && s[i] == x && s[j] == x
  {
    var n := |s| - 1;
    assert s == s[..n] + [s[n]];
    if s[n] == x {
      assert x in multiset(s[..n]);
      var i :| 0 <= i < n && s[..n][i] == x;
      assert s[i] == x;
    } else {
      TwoPlaces(s[..n], x);
      var i, j :| 0 <= i < j < n && s[..n][i] == x && s[..n][j] == x;
      assert s[i] == x && s[j] == x;
    }
  }

  lemma Twice<T>(b: seq<T>, i: nat, j: nat)
    requires i < j < |b| && b[i] == b[j]
    ensures multiset(b)[b[i]] >= 2
  {
    assert b == b[..j] + [b[j]] + b[j + 1..];
    assert b[..j][i] in multiset(b[..j]);
  }

  /** Reordering modules does not undo a duplicate. */
  lemma PermutedDuplicate(a: seq<Module>, b: seq<Module>)
    requires multiset(a) == multiset(b) && HasDuplicate(a)
    ensures HasDuplicate(b)
  {
    var i, j :| 0 <= i < j < |a| && Participates(a[i]) && Participates(a[j]) && a[i].name == a[j].name;
    assert a[i] in multiset(b) && a[j] in multiset(b);
    if a[i] == a[j] {
      Twice(a, i, j);
      TwoPlaces(b, a[i]);
    } else {
      var k :| 0 <= k < |b| && b[k] == a[i];
      var l :| 0 <= l < |b| && b[l] == a[j];
    }
  }

  lemma Once(a: seq<Registration>, k: nat)
    requires DistinctProviders(a) && k < |a|
    ensures multiset(a)[a[k]] == 1
  {
    assert a == a[..k] + [a[k]] + a[k + 1..];
    assert a[k] !in a[..k] && a[k] !in a[k + 1..];
    assert multiset(a[..k])[a[k]] == 0 && multiset(a[k + 1..])[a[k]] == 0;
  }

  /** Reordering registrations cannot make two of them share a provider. */
  lemma PermutedStaysDistinct(a: seq<Registration>, b: seq<Registration>)
    requires DistinctProviders(a) && multiset(a) == multiset(b)
    ensures DistinctProviders(b)
  {
    forall i, j | 0 <= i < j < |b| ensures b[i].provider != b[j].provider {
      if b[i].provider == b[j].provider {
        assert b[i] in multiset(a) && b[j] in multiset(a);
        var k :| 0 <= k < |a| && a[k] == b[i];
        var l :| 0 <= l < |a| && a[l] == b[j];
        assert k == l;
        Twice(b, i, j);
        Once(a, k);
      }
    }
  }

  /**
   * `_identity_resolver_registrations`: modules in name order, each declaration checked, then
   * duplicates looked for, then the registrations sorted by provider.
   */
  method IdentityResolverRegistrations(modules: seq<Module>) returns (r: Result<seq<Registration>, RegistryError>)
    ensures r.Ok? <==> AllSound(modules) && !HasDuplicate(modules)
    ensures r.Err? && r.error.Duplicate? ==> AllSound(modules)
    ensures r.Err? && !r.error.Duplicate? ==> exists i :: FirstUnsound(Sorted(modules, NameOf), i, r.error)
    ensures r.Ok? ==> IsStrictlyOrdered(r.value, ProviderOf)
    ensures r.Ok? ==> forall registration :: registration in r.value <==> IsDeclared(modules, registration)
  {
    var ordered := Sorted(modules, NameOf);
    SortedIsOrdered(modules, NameOf);
    SameElements(ordered, modules);
    if HasDuplicate(ordered) {
      PermutedDuplicate(ordered, modules);
    }
    if HasDuplicate(modules) {
      PermutedDuplicate(modules, ordered);
    }
    var collected := CollectRegistrations(ordered);
    if collected.Err? {
      return collected;
    }
    var registrations := collected.value;
    var duplicate := FindDuplicate(registrations);
    if duplicate.Some? {
      return Err(Duplicate(duplicate.value));
    }
    SortedIsOrdered(registrations, ProviderOf);
    r := Ok(Sorted(registrations, ProviderOf));
    SameElements(r.value, registrations);
    PermutedStaysDistinct(registrations, r.value);
    OrderedDistinctIsStrict(r.value, ProviderOf);
  }
}
