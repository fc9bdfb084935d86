# A verified model of apron-auth

apron-auth is an OAuth 2.0 client library: it builds authorization URLs, keeps the pending
states of flows under way, redeems authorization codes, discovers the metadata of MCP servers
and reports which domains an identity verifiably owns. This project states what those parts are
for as Dafny contracts and proves it. `dafny verify dfyconfig.toml` checks all of it.

## How the model is laid out

| module | models | in the form of |
|---|---|---|
| `Stores` | `stores.py` | the class `MemoryStateStore` with its map, a `Clock`, and a ghost history; a reference store that never prunes |
| `Client` | `client.py` | the class `OAuthClient`, its two calls proved against functions |
| `Flow` | `client.py` with `stores.py` | a step machine: any number of calls, cut at their awaits, interleaved in every way, sharing one store |
| `Callbacks`, `SharedStore` | the same | theorems about its runs: what becomes of callbacks, and that its store is the one of `Stores` |
| `QueryStrings`, `FormSpellings`, `Remerging` | the query merge of `client.py` | form encoding, `parse_qs` on any text, and dictionaries that keep their order |
| `Base64Url`, `Utf8`, `Pkce` | `pkce.py` and the decoding in `microsoft.py` | functions |
| `Scopes` | `scopes.py` | the worklist as a method, parsing as functions |
| `ProviderConfigs` | the validators of `models.py` | functions |
| `McpConfig`, `Discovery`, `HostLiterals`, `Numerals` | `mcp.py` | functions over a trace; the two loops as methods |
| `HostMatch`, `Identity`, `Sorting` | `_host_match.py`, `identity.py` | predicates; the loops as methods |
| `Tenancies`, `Microsoft`, `Json` | `models.py`, `microsoft.py` | functions over JSON values |
| `Slack` | `slack.py` | the preset as a method |
| `Texts`, `Wrappers` | string operations, `Option` and `Result` | functions |

What stands in for the outside world:

- The clock is a value. In `Stores.Clock` and the classes that read it, it never decreases; the runs
  of `Flow` ask nothing of it, and a theorem about them that needs it not to be set back says so
  (`ClockAdvances`). `PruningShowsExactly` says what setting it back does.
- Random bytes are inputs. Where a theorem needs them to differ, it says so (`DistinctDraws`),
  and only the bytes behind tokens need to.
- SHA-256 (`Digest`), whitespace (`ws`), trimming and case folding (`Fold`), `json.loads` (`Loads`),
  IPv6 text (`v6`, of which only that it has a colon is used), the address categories (`nonPublic`),
  `urlparse` and `urljoin` are parameters: the theorems hold whatever they are.
- Each request is replaced by its outcome. In `Discovery` the replies and the verdicts of the
  caller's URL policy may change from one moment to the next.
- Sets and dictionaries are walked in an arbitrary order wherever Python leaves the order open.

## Where the code and its promises part

- Pruning reads the wall clock, which may be set back. A consume then differs from that of a store
  without pruning exactly when the entry was pruned at a reading at which it had expired and has not
  expired at the consume's own reading (`PruningShowsExactly`). A consume that reads the clock no
  earlier than that prune never differs; for every earlier reading there is a state for which it
  does, after any history (`PruningShowsExactlyWhenSetBack`). `ExchangesSeeReferenceExactly` says the
  same of the consumes of every run.
- Building a URL out of a built URL gives the same query exactly when the names in it, those of the
  URL and then those of the parameters, end with the blank parameters' names in their own order
  (`MergeIsIdempotentExactly`); `MergeMovesBlanks` has a configuration for which it does not. With
  no blank parameter it always does, and the values read for each key are the same in any case
  (`MergeTwiceReads`).
- Joining scopes and parsing them again is the identity exactly on lists of scopes that are
  non-empty, trimmed and free of the separator (`ParseJoin`); `ReadWriteIsSplit` has one that is not.
- The extra parameters may replace the protocol's own, `state` and `code_challenge` included. The
  server reads each of them as the flow needs it exactly when no extra parameter gives that key
  another value (`ReadAsSetExactly`, and for the requests of a run `ChallengeMeetsVerifier`);
  `ExtraChallengeShadows` has a configuration whose challenge no verifier meets.

## Model

| member | source | states |
|---|---|---|
| `Flow.ConservationLaw` | src/apron_auth/stores.py:50-97 | In every run, whatever the clock does, for every key: saves are redemptions, plus states lost to pruning, replacement or lateness, plus what the store still holds. |
| `Flow.RedeemedAtMostAsOftenAsSaved` | src/apron_auth/client.py:203-226 | Over every interleaving, token requests sent for a state are at most its redemptions, and these at most its saves. |
| `Flow.CountsAlways` | src/apron_auth/client.py:203-226 | The invariant behind it: requests plus calls that have redeemed and not yet sent are covered by redemptions, and each save is one call's own. |
| `Flow.AtMostOneRequestPerState` | src/apron_auth/stores.py:59-80 | When no two authorization calls drew the same random bytes, at most one token request goes out for a state, however the calls interleave (section 4.1.2 of RFC 6749). |
| `Flow.RequestIsBound` | src/apron_auth/client.py:205-226 | A request sent for a state carries the exchange's own code; the redirect URI that was asked for when the URL was built, or the configured one if none was; and the verifier drawn then, exactly if that call used PKCE. With distinct draws that call is the only one. |
| `Flow.RequestIsItsExchanges` | src/apron_auth/client.py:203-226 | Every request carries the code and the configured resource of its exchange; one sent without a state carries that call's own redirect URI and verifier, empty ones left out. |
| `Flow.AuthorizationStarts` | src/apron_auth/client.py:109-152 | A call that has a redirect URI to use builds the state and the URL of one flow out of just what it was given, dated at that moment; without one nothing happens. |
| `Flow.ChallengeMeetsVerifier` | src/apron_auth/client.py:114-157 | The authorization server reads in the URL, as the challenge, the S256 image of the verifier the token request later carries if and only if no extra parameter gives that key another value; likewise the method, the state and the redirect URI of that request (sections 4.2 and 4.6 of RFC 7636). |
| `Flow.ContextIsBound` | src/apron_auth/client.py:204-229 | The context on a token set obtained for a state is the metadata given to the call that built that state, and empty if none was given. |
| `Flow.RedemptionsAreFresh` | src/apron_auth/stores.py:82-91 | No run redeems a state at or past its maximum age, by the reading its consume took. |
| `Flow.CallsAlwaysOk` | src/apron_auth/client.py:203-229 | What every reachable call satisfies: an authorization call is the state and URL it built; an exchange past its start has passed the issuer check, and the store if it uses one. |
| `Flow.SourcedAlways` | src/apron_auth/client.py:146-155 | Everything in the store and everything ever redeemed from it was built and saved by some authorization call. |
| `Flow.EventsAlwaysOk` | src/apron_auth/client.py:203-226 | Every token request and redemption in the history agrees with the call it belongs to, in every reachable world. |
| `Flow.RequestsFollowTheirIssuer` | src/apron_auth/client.py:203 | Every token request of every run followed an answer that named the client's issuer, or named none where the client has no issuer or does not require it named (section 2.4 of RFC 9207). |
| `Flow.DiscoveredIssuerIsFollowed` | src/apron_auth/mcp.py:206-219 | For a configuration built from metadata with an issuer and the support flag, every token request had `iss` equal to that issuer. |
| `Callbacks.RejectionsAreInert` | src/apron_auth/client.py:203-212 | From any world, any number of callbacks with a refused `iss` leave clock, store, history and all other calls as they were. |
| `Callbacks.RejectedCallsLeaveNoEvent` | src/apron_auth/client.py:203-226 | In every run, no save, redemption, lapse, miss or token request belongs to a call that ended in the issuer error. |
| `Callbacks.StoredStateStays` | src/apron_auth/stores.py:50-97 | In every run whose clock was not set back, a state that was saved and since then neither consumed nor saved again under its key is in the store as it was saved, or its age has reached the maximum. |
| `Callbacks.FreshStateIsRedeemed` | src/apron_auth/stores.py:59-80 | In every world such a run reaches, a call that consumes an untouched state younger than the maximum age redeems just that state and goes on to its request. |
| `Callbacks.InterleavedCallbackSucceeds` | src/apron_auth/client.py:203-226 | However other steps, refused callbacks among them, fall between those of a callback with an accepted `iss`: if its state is untouched and younger than the maximum age when it consumes it, and the clock was not set back until then, the request it sends carries its code and that state's redirect URI and verifier. |
| `Callbacks.GenuineCallbackStillSucceeds` | src/apron_auth/client.py:203-226 | In every world reached without setting the clock back, such a callback on an untouched state younger than the maximum age can be taken to its request, and adds one redemption and that request to the history. |
| `Callbacks.GenuineCallbackIsAnswered` | src/apron_auth/client.py:225-229 | The endpoint's answer can then come, and ends the call with the error it names, or with the token and the metadata the state was built with. |
| `Callbacks.DirectExchangeIsSent` | src/apron_auth/client.py:203-226 | An exchange without a state, once past the issuer check, sends its own arguments and leaves the store alone. |
| `Callbacks.AuthorizationIsStored` | src/apron_auth/client.py:109-157 | The state an authorization builds is the one stored when it saves, whatever others do in between. |
| `Callbacks.WholeFlowSucceeds` | src/apron_auth/client.py:109-229 | From start to request: an authorization starts and saves amid other calls, nobody touches its state, and a callback with an accepted issuer within the maximum age of the start gets its request out, with the redirect URI the authorization chose and the verifier it drew. |
| `SharedStore.StoreCallsFit` | src/apron_auth/stores.py:50-97 | The store steps of every run are a history of calls the store allows, and leave in it the run's own entries. |
| `SharedStore.StoreCallsInOrder` | src/apron_auth/stores.py:50-97 | When the clock was not set back during the run, that history reads it in order. |
| `SharedStore.ExchangesSeeReferenceExactly` | src/apron_auth/client.py:205-212 | In every run, whatever the clock does, a consume ends as it would over a store that never prunes if and only if the entry was not pruned or has expired by the consume's own reading. |
| `SharedStore.ExchangesSeeReference` | src/apron_auth/client.py:205-212 | When the clock was not set back, every consume of the run redeems the reference store's entry if there is one younger than the maximum age, and otherwise ends in the state error. |
| `SharedStore.SharedStoreIsBounded` | src/apron_auth/stores.py:50-57 | Right after a save that reads the clock in order, the store of any run holds at most one entry more than the keys saved within the last window. |
| `Stores.MemoryStateStore.Save` | src/apron_auth/stores.py:50-57 | The new map holds the old entries younger than the maximum age at their own reading, with the entry set; the reference store gains just the entry; the size bound holds. |
| `Stores.MemoryStateStore.Consume` | src/apron_auth/stores.py:59-80 | The key goes in any case, and its entry is found exactly if it is younger than the maximum age at the reading taken, in this store as in one that never prunes. |
| `Stores.MemoryStateStore.Prune` | src/apron_auth/stores.py:93-97 | The two passes keep exactly the entries younger than the maximum age at their own reading of the clock. |
| `Stores.RefinesAlways` | src/apron_auth/stores.py:50-97 | The refinement invariant: the store holds a part of the reference store, and what it no longer holds has expired for good. |
| `Stores.PruningIsInvisible` | src/apron_auth/stores.py:50-97 | After any saves and consumes under a clock that does not run backwards, a consume gives what it would give in a store that never prunes. |
| `Stores.PruningShowsExactly` | src/apron_auth/stores.py:59-97 | For every history, in whatever order the clock was read, a consume agrees with the reference store if and only if the key's entry was not pruned or has expired by its own reading; reading no earlier than that prune is enough. |
| `Stores.DroppedExactly` | src/apron_auth/stores.py:82-97 | For every history, an entry pruned and not saved again or consumed is exactly one the reference store has and the store has not, and had expired at the reading that pruned it. |
| `Stores.PruningShowsExactlyWhenSetBack` | src/apron_auth/stores.py:82-97 | The clock may be set back. After any history, a consume agrees with the reference store for every state a prune at a given reading can have tested if and only if the consume reads the clock no earlier than that. |
| `Stores.SizeAfterSave` | src/apron_auth/stores.py:50-57 | After a save the store holds at most one entry more than the keys saved within the last window. |
| `Stores.EntriesWereSaved` | src/apron_auth/stores.py:50-57 | Every entry is one some call saved, under its own key. |
| `Client.OAuthClient.GetAuthorizationUrl` | src/apron_auth/client.py:109-157 | Succeeds exactly with a non-empty redirect URI asked for or configured, the one asked for winning; the URL and the pending state share token, challenge and redirect URI; the entry in the store; nothing drawn or saved otherwise. |
| `Client.OAuthClient.ExchangeCode` | src/apron_auth/client.py:203-229 | A refused issuer changes nothing; a state is gone from the store whatever happens next; at most one request is sent, and with which redirect URI, verifier and context. |
| `Client.OAuthClient.BuildUrl` | src/apron_auth/client.py:117-144 | Filling the parameters one after the other and merging them gives the query `AuthorizationQueryReads` describes. |
| `Client.OAuthClient.BuildForm` | src/apron_auth/client.py:214-223 | Filling the form field by field gives the form `TokenForm` describes. |
| `Client.ParamsGive` | src/apron_auth/client.py:117-138 | For every key the parameters give the configured resource, else the extra parameter, else the protocol's value, and no key has two. |
| `Client.AuthorizationQueryReads` | src/apron_auth/client.py:117-144 | What a blank-keeping decoder reads for each key of the built URL: the resource, else the extra parameter, else the protocol's value, else the authorize URL's own non-blank values in order. |
| `Client.ReadAsSetExactly` | src/apron_auth/client.py:117-144 | A parameter the protocol sets is read as set if and only if no extra parameter gives its key another value. |
| `Client.ExtraChallengeShadows` | src/apron_auth/client.py:128-132 | A configuration whose extra parameters name the challenge: the server reads that text, and no verifier meets it. |
| `Client.TokenForm` | src/apron_auth/client.py:214-223 | Which fields a token request has and their values; empty texts are left out like absent ones. |
| `Client.ParseTokenResponse` | src/apron_auth/client.py:421-438 | Fails exactly without an access token or with a field its slot cannot take, such as an `expires_in` that `int` refuses; every field of the response is either one with a slot of its own or kept unchanged in the metadata. |
| `Client.ExchangeResult` | src/apron_auth/client.py:225-229 | An endpoint failure ends in its error code; a response gives the token and the context exactly if it is complete. |
| `QueryStrings.UnquoteQuote` | src/apron_auth/client.py:144 | Any text survives percent encoding, and its quoted form contains no delimiter. |
| `QueryStrings.FormRoundTrip` | src/apron_auth/client.py:140-144 | A decoder reads every pair of an encoded form back in order, save the blank ones if it drops those (appendix B of RFC 6749). |
| `FormSpellings.EveryWritingIsRead` | src/apron_auth/client.py:141 | However a text is written in a query, each byte as it is, as a plus or as two hexadecimal digits of either case, it is read back. |
| `FormSpellings.StrayPercentStays` | src/apron_auth/client.py:141 | A percent sign that two hexadecimal digits do not follow stands for itself. |
| `FormSpellings.ItemIsRead` | src/apron_auth/client.py:141 | What an item contributes: its name and value, its name alone, or nothing, by whether blanks are kept. |
| `FormSpellings.QueryIsRead` | src/apron_auth/client.py:141 | Any query is read as what stands before an ampersand followed by what stands behind it. |
| `FormSpellings.UnreservedStays` | src/apron_auth/client.py:144 | The writer leaves unreserved characters as they are and writes a space as a plus. |
| `QueryStrings.MergedGives` | src/apron_auth/client.py:141-143 | The merged dictionary gives each key its parameter, else the non-blank values the URL had. |
| `QueryStrings.MergedQueryReads` | src/apron_auth/client.py:140-144 | Decoding the merged query gives each key its parameter's values, else the URL's own non-blank values in order. |
| `Remerging.GroupFlatten` | src/apron_auth/client.py:141-144 | Reading a written dictionary gives it back, keys in order. |
| `Remerging.SecondMerge` | src/apron_auth/client.py:140-144 | Merging the same parameters into the built query once more, exactly: entries with a value keep their places, blank parameters line up behind. |
| `Remerging.MergedKeys` | src/apron_auth/client.py:141-143 | The merged dictionary has the names with a value in the URL and then the parameters', each at its first occurrence. |
| `Remerging.MergeIsIdempotentExactly` | src/apron_auth/client.py:140-144 | The second merge reproduces the query to the letter if and only if the names the query and the parameters give, in order of first occurrence, end with the names of the blank parameters. |
| `Remerging.MergeIsIdempotent` | src/apron_auth/client.py:140-144 | With no blank parameter the second merge is the identity. |
| `Remerging.MergeTwiceReads` | src/apron_auth/client.py:140-144 | A server reads the same values for every key whether the merge was done once or twice, blank parameters or not. |
| `Remerging.MergeMovesBlanks` | src/apron_auth/client.py:117-144 | A configuration, with a blank extra parameter and a resource, for which building on the built URL gives another URL. |
| `Pkce.VerifierIsWellFormed` | src/apron_auth/pkce.py:10-16 | A verifier has 43 characters, all unreserved, and decodes to all the bytes drawn (section 4.1 of RFC 7636). |
| `Pkce.TokensAreDistinct` | src/apron_auth/pkce.py:10-16 | A token decodes to the bytes drawn, so two tokens are equal exactly when those are. |
| `Pkce.ChallengeCarriesDigest` | src/apron_auth/pkce.py:29-30 | A challenge has 43 characters and decodes, padding restored, to the whole digest. |
| `Pkce.ChallengeMatches` | src/apron_auth/pkce.py:29-30 | Two verifiers share a challenge exactly when they share a digest. |
| `Base64Url.UnpaddedRoundTrip` | src/apron_auth/pkce.py:29-30 | For every byte string, stripping the padding and appending it again restores the canonical text, which decodes to the bytes (sections 3.2 and 5 of RFC 4648). |
| `Base64Url.UnpaddedShape` | src/apron_auth/pkce.py:30 | The unpadded length is determined by the byte count, is never 1 modulo 4, and only the alphabet is used. |
| `Base64Url.UnpaddedIsInjective` | src/apron_auth/pkce.py:29-30 | Different byte strings have different unpadded encodings. |
| `Base64Url.RepaddedDecodesExactly` | src/apron_auth/providers/microsoft.py:79-81 | A text over the alphabet decodes, once padded, exactly when its length is not 1 modulo 4, and to how many bytes. |
| `Base64Url.ForeignIsSkipped` | src/apron_auth/providers/microsoft.py:81 | An ASCII character outside the alphabets changes nothing, wherever it stands. |
| `Base64Url.StandardAlphabetDecodes` | src/apron_auth/providers/microsoft.py:81 | A text over the standard alphabet decodes like the same text over the URL-safe one; text that is not ASCII is refused. |
| `Utf8.DecodeEncode` | src/apron_auth/client.py:140-144 | Every text survives UTF-8 encoding and replacing decoding. |
| `Scopes.ResolveImplicitScopes` | src/apron_auth/scopes.py:24-33 | The worklist ends on every map, cyclic or not, returns exactly the scopes reachable from the granted ones whatever the order, and pops as often as the result has scopes. |
| `Scopes.ClosureIsHeld` | src/apron_auth/scopes.py:24-33 | A scope is in the result exactly when a chain of implications leads to it from a granted scope. |
| `Scopes.ClosureIsClosed` | src/apron_auth/scopes.py:24-33 | The result contains what was granted and is closed under the map. |
| `Scopes.ClosureIsLeast` | src/apron_auth/scopes.py:24-33 | Every closed set with the granted scopes contains the result. |
| `Scopes.ClosureIsMonotone` | src/apron_auth/models.py:274-287 | Granting more never gives less. |
| `Scopes.ClosureIsIdempotent` | src/apron_auth/models.py:274-287 | Resolving a resolved set changes nothing. |
| `Scopes.ClosureOfUnion` | src/apron_auth/models.py:274-287 | Resolution distributes over union. |
| `Scopes.ParseJoin` | src/apron_auth/scopes.py:36-67 | Joining and parsing is the identity if and only if every scope is non-empty, trimmed and free of the separator. |
| `Scopes.SpacedScopeIsSplit` | src/apron_auth/scopes.py:36-67 | A scope with the separator between two parts comes back as those two scopes. |
| `Scopes.ReadWriteIsSplit` | src/apron_auth/scopes.py:36-67 | An input for which joining and parsing is not the identity: `read write`, joined with a space. |
| `Scopes.ParseIsStable` | src/apron_auth/scopes.py:36-67 | For every text, parsing what was parsed and joined gives the same list. |
| `Scopes.ParsesExactly` | src/apron_auth/scopes.py:63-67 | Which scopes a text names: the non-empty trimmed parts. |
| `Texts.StripIsMiddle` | src/apron_auth/scopes.py:67 | Trimming takes whitespace off the two ends of a text and nothing else. |
| `Scopes.ParseIsTrimmedParts` | src/apron_auth/scopes.py:65-67 | The early return for blank text agrees with the general rule. |
| `Scopes.ParsedScopesAreClean` | src/apron_auth/scopes.py:65-67 | What is parsed is non-empty, trimmed and free of the separator. |
| `HostMatch.MatchIsLabelSuffix` | src/apron_auth/providers/_host_match.py:19-35 | For all texts, the string test is suffix matching on lists of labels. |
| `HostMatch.SuffixesOfOneHost` | src/apron_auth/providers/_host_match.py:19-35 | Of two suffixes that match one host, one matches the other. |
| `HostMatch.HostsMatchExactly` | src/apron_auth/providers/_host_match.py:38-64 | A configuration matches a table exactly if each of its two hosts is, label by label, under some suffix of it. |
| `Identity.InferIdentityHandler` | src/apron_auth/providers/identity.py:103-123 | No handler, the handler of the one match, or an ambiguity error naming all matches in order; over the built-in tables never ambiguous, and a provider is inferred exactly if each of the two hosts is, label by label, under a suffix of its table. |
| `Identity.MatchingIsExact` | src/apron_auth/providers/identity.py:103-113 | A provider is among the matches exactly when each of the two hosts is, label by label, under a suffix of one of its registrations. |
| `Identity.AtMostOneMatches` | src/apron_auth/providers/identity.py:103-123 | Registrations whose suffixes are pairwise incomparable never match two at once, on any hosts. |
| `Identity.BuiltInTablesAreIncomparable` | src/apron_auth/providers/_host_match.py:19-35 | No suffix of the ten built-in tables matches a suffix of another provider's table. |
| `Identity.TheMatchIsInferred` | src/apron_auth/providers/identity.py:103-123 | Over incomparable tables with distinct providers, a registration accepts both hosts exactly when it is the single match. |
| `Identity.BuiltInInferenceIsUnambiguous` | src/apron_auth/providers/identity.py:103-123 | Inference over the built-in providers is never ambiguous, on any configuration, and finds whichever provider matches. |
| `Identity.IdentityResolverRegistrations` | src/apron_auth/providers/identity.py:34-84 | Succeeds exactly when every participating declaration is sound and no name is taken twice; the result is strictly ordered and has just the declared registrations; an unsound declaration is reported for the first module by name. |
| `Identity.CollectRegistrations` | src/apron_auth/providers/identity.py:34-74 | The first loop collects exactly the declared registrations, or reports the first refused declaration and why. |
| `Identity.FindDuplicate` | src/apron_auth/providers/identity.py:76-81 | The second loop reports the first repeated provider, if any. |
| `Identity.PermutedDuplicate` | src/apron_auth/providers/identity.py:35 | Sorting modules by name neither hides nor invents a duplicate. |
| `Sorting.SortedIsOrdered` | src/apron_auth/providers/identity.py:83 | Sorting orders by key and keeps every element. |
| `Sorting.BeforeExactly` | src/apron_auth/providers/identity.py:35 | The order of names is decided at the first place where they differ, by the smaller character or by the end of a name. |
| `Sorting.OrderedDistinctIsStrict` | src/apron_auth/providers/identity.py:76-84 | Without repeated providers the order is strict. |
| `HostLiterals.ParsersAgree` | src/apron_auth/mcp.py:479-487 | Wherever the strict parser accepts an IPv4 text, the lenient one gives the same value. |
| `HostLiterals.EverySpellingParses` | src/apron_auth/mcp.py:483-487 | Every spelling of an address, in one to four parts, each decimal, octal or hexadecimal, with any leading zeros and every letter in either case, parses to its 32-bit value. |
| `HostLiterals.AtonIsExact` | src/apron_auth/mcp.py:483-487 | A host is read as an address if and only if it joins with dots one to four numerals that spell that address. |
| `Numerals.NumeralsAreExact` | src/apron_auth/mcp.py:483-487 | A part is read as a number if and only if it is a decimal, octal or hexadecimal numeral whose digits, by their places, make that number. |
| `HostLiterals.StrictIsExact` | src/apron_auth/mcp.py:479-482 | The strict parser accepts a text as an address if and only if it is the dotted quad of that address. |
| `HostLiterals.QuadParses` | src/apron_auth/mcp.py:479-487 | Both parsers read the dotted quad of every 32-bit value as that value. |
| `HostLiterals.ShortFormFillsBytes` | src/apron_auth/mcp.py:483-487 | A short form is the dotted quad whose remaining bytes its last part fills, the most significant first. |
| `HostLiterals.AddressIsInjective` | src/apron_auth/mcp.py:483-487 | Two forms with as many parts share an address only if they are the same. |
| `HostLiterals.EveryLengthSpells` | src/apron_auth/mcp.py:483-487 | Every address has a form of every length from one to four parts that parses to it. |
| `HostLiterals.NumericHostIsBlockedByAddress` | src/apron_auth/mcp.py:490-504 | A host either parser reads as IPv4 is blocked exactly when its address is of a refused category. |
| `HostLiterals.VerdictDependsOnAddress` | src/apron_auth/mcp.py:490-504 | The verdict on such a host is the verdict on its canonical dotted quad. |
| `HostLiterals.SpellingsShareVerdict` | src/apron_auth/mcp.py:490-504 | Two spellings of one address have one verdict. |
| `HostLiterals.BlockedExactly` | src/apron_auth/mcp.py:490-504 | A host is let through exactly if it is not empty, not localhost or a name under it, and no IPv4 spelling or IPv6 text of an address of a refused category. |
| `Discovery.FetchFirstMetadata` | src/apron_auth/mcp.py:611-631 | The loop computes the trace and the document of the fallback search. |
| `Discovery.PrmCandidateUrls` | src/apron_auth/mcp.py:559-569 | The loop-free building of the list yields the candidates that `PrmCandidatesExactly` describes. |
| `Discovery.PrmCandidatesExactly` | src/apron_auth/mcp.py:559-569 | One to three candidates: the root location always and last, the hint exactly when it is not empty and first, the location for the path between them exactly when there is a path. |
| `Discovery.AsmCandidatesPreferRfc8414` | src/apron_auth/mcp.py:572-583 | The RFC 8414 location comes first, then the OpenID location with the path behind its well-known part, then, exactly where there is a path, the one with the path before it; slashes at the end of the path make no difference. |
| `Discovery.AuthorizationServerExactly` | src/apron_auth/mcp.py:98-104 | The authorization server is the first non-empty text of the list the resource declares. |
| `Discovery.DocumentExactly` | src/apron_auth/mcp.py:619-628 | Only a JSON object that comes with status 200 is a document. |
| `Discovery.AcceptedExactly` | src/apron_auth/mcp.py:527-556 | A URL is accepted exactly if it parses, is HTTPS, has a public host, and the caller's policy accepts it at that moment. |
| `Discovery.FetchIsEarliest` | src/apron_auth/mcp.py:611-631 | A stage returns the document of the earliest candidate that yields one and requests none after it; it stops at the first refused candidate; it fails only when all were tried in vain. |
| `Discovery.FetchKeeps` | src/apron_auth/mcp.py:611-631 | Every stage, from a trace without refusals, keeps the discipline of the trace. |
| `Discovery.DiscoveryIsDisciplined` | src/apron_auth/mcp.py:90-141 | On every run each request directly follows the acceptance of its own URL, a refused URL ends the run with that refusal, and all endpoints returned passed validation. |
| `Discovery.RequestsMeetBaseline` | src/apron_auth/mcp.py:527-547 | No request of any run goes to a URL that is not HTTPS or whose host is refused. |
| `Discovery.RequestsArePublic` | src/apron_auth/mcp.py:527-547 | So every request of every run goes over HTTPS to a host that is public by name and by every spelling of an address. |
| `Discovery.SuccessfulRun` | src/apron_auth/mcp.py:90-141 | The whole trace of a successful run: which candidates were tried for which document, that both documents are the earliest, and that the metadata comes from just those two. |
| `Discovery.RunSucceedsExactly` | src/apron_auth/mcp.py:90-141 | A run succeeds if and only if the earliest document of the resource's candidates names a server, the earliest document of that server's candidates has both endpoints, and every URL validated on the way is accepted. |
| `Discovery.MetadataIsDeclared` | src/apron_auth/mcp.py:113-141 | Each value and each flag handed out is the one the right document declares under its own name, absent when it declares none of the right type. |
| `Discovery.DiscoveredIssuerIsRequired` | src/apron_auth/mcp.py:90-219 | Where the server's document names an issuer and promises to send it, a configuration built from the discovered metadata accepts that issuer and nothing else. |
| `McpConfig.SelectsExactly` | src/apron_auth/mcp.py:411-430 | Selection succeeds if and only if some offered method can be performed with or without the secret, and selects such a method; `client_secret_post` is preferred; the error tells what could not be met. |
| `McpConfig.SelectionIgnoresOrder` | src/apron_auth/mcp.py:411-430 | Neither the order of the advertised list nor repetition in it matters. |
| `McpConfig.SelectedMethodIsValid` | src/apron_auth/mcp.py:195-219 | The selected method never contradicts the secret: building succeeds exactly when selection does and the resource is absolute without fragment; the method is `none`, and no credential presented, exactly without a secret. |
| `McpConfig.BuiltConfigIsBound` | src/apron_auth/mcp.py:204-219 | Every field of the built configuration: the selected method, endpoints, identity, issuer and resource; which `iss` it accepts and when it uses PKCE. |
| `ProviderConfigs.ValidConfigPresentsCredential` | src/apron_auth/models.py:170-241 | A validated configuration presents its secret exactly when it has one, and none exactly when its method is `none`. |
| `ProviderConfigs.RefusedExactly` | src/apron_auth/models.py:170-222 | Which configurations are refused and with which error: a secret exactly unless the method is `none`, and a resource that is absolute and without fragment. |
| `ProviderConfigs.IssuerAcceptedExactly` | src/apron_auth/models.py:243-272 | Without a known issuer anything is let through; otherwise that issuer, or none at all where naming it is not required. |
| `Tenancies.ListedExactly` | src/apron_auth/models.py:597-616 | A tenancy is listed exactly when it is one of the profile's and asserts ownership of a domain that is not blank. |
| `Tenancies.ListKeepsOrder` | src/apron_auth/models.py:597-616 | The list keeps provider order and every occurrence. |
| `Tenancies.ListAndGateAgree` | src/apron_auth/models.py:597-641 | What is listed is owned, what is owned is listed, and the list is non-empty exactly when some domain is owned. |
| `Tenancies.GateIgnoresOrder` | src/apron_auth/models.py:618-641 | The gate does not depend on the order of the tenancies. |
| `Tenancies.OwnsExactly` | src/apron_auth/models.py:506-519 | A domain is owned exactly when it is not blank and some tenancy asserts ownership of one that folds to the same text. |
| `Microsoft.ClaimsOfIssuedToken` | src/apron_auth/providers/microsoft.py:75-92 | The payload of a token is read back whole, whatever its header and signature. |
| `Microsoft.ClaimsExactly` | src/apron_auth/providers/microsoft.py:75-92 | The claims read are exactly those a token bears: its second part, up to a dot or the end, decodes with padding restored to a JSON object. |
| `Microsoft.GuidExactly` | src/apron_auth/providers/microsoft.py:53 | A GUID is five groups of 8, 4, 4, 4 and 12 hexadecimal digits of either case with hyphens between them. |
| `Microsoft.TenantIsVouchedFor` | src/apron_auth/providers/microsoft.py:119-129 | A tenant is validated exactly when `tid` is a GUID other than the consumers' tenant, `iss` is its issuer and no other `idp` is named. |
| `Microsoft.OrganizationExactly` | src/apron_auth/providers/microsoft.py:246-285 | An organization is found exactly when the directory answers successfully and names it first. |
| `Microsoft.TenanciesExactly` | src/apron_auth/providers/microsoft.py:314-357 | The tenancies are exactly the organization's verified domains, all owned, bound to the tenant and bearing the organization's name, and only if the organization has the tenant's id. |
| `Microsoft.OwnershipIsExact` | src/apron_auth/providers/microsoft.py:158-196 | The profile owns a domain if and only if it is not blank, there is an ID token that bears claims passing every check, and the directory, answering for that tenant, lists a domain equal to it after folding; there is a profile exactly when the userinfo is a successful JSON object whose profile fields are texts or null. |
| `Microsoft.IssuedTokenDecides` | src/apron_auth/providers/microsoft.py:158-196 | For a token issued with a payload, ownership and subject in terms of that payload's claims alone. |
| `Microsoft.FailsExactly` | src/apron_auth/providers/microsoft.py:210-226 | Which userinfo outcomes fail and with which error; the token and the directory never make a sign-in fail. |
| `Microsoft.DirectoryFailureOwnsNothing` | src/apron_auth/providers/microsoft.py:287-326 | Whenever the directory does not answer for the validated tenant, no domain at all is owned. |
| `Microsoft.SubjectIsExact` | src/apron_auth/providers/microsoft.py:360-402 | The subject is the one the ID token's claims name, and the userinfo's if they name none; the email is reported verified or not exactly as a boolean claim says. |
| `Slack.MakePreset` | src/apron_auth/providers/slack.py:524-553 | Fails exactly without scopes; otherwise the parameters, endpoints, scopes and scope families asked for. |
| `Slack.JoinNamesOpenid` | src/apron_auth/providers/slack.py:74-77 | Joining user scopes with commas and splitting them again neither hides nor invents `openid`. |
| `Slack.PresetRoutesOpenid` | src/apron_auth/providers/slack.py:58-77 | The handler sees `openid` exactly when the caller of the preset asked for it. |
| `Slack.CleanUserScopes` | src/apron_auth/providers/slack.py:58-77 | For user scopes without commas or surrounding space that is membership. |
| `Slack.TeamDomainExactly` | src/apron_auth/providers/slack.py:106-117 | A team domain is read exactly from hosts of three labels under slack.com, the first not empty. |

## Left out

- Network input and output: requests are replaced by their outcomes, and what httpx and authlib do is not modelled.
- SHA-256 and the random generator: an uninterpreted function, and bytes given as inputs.
- `urlparse`, `urljoin` and `urlunparse`: URLs come as parsed parts, and nothing is claimed about the origin of candidate URLs.
- IPv6 text, what `inet_aton` does with text after an address, and the tables of address categories.
- Unicode tables for case folding and whitespace; texts with lone surrogates, which UTF-8 cannot encode.
- Scope separators of several characters, and the empty one, which `str.split` refuses.
- `refresh_token`, `revoke_token` and the classification of OAuth error codes.
- ParseTokenResponse: does not model the token type, the refresh token, the scope and the two expiry fields, which are copied from the response or computed from `expires_in`; whether they fit their slots is given with the response.
- Registration of clients, client metadata documents and the inference of the application type.
- The identity and revocation handlers of the other providers, and their presets; their host suffixes are the data of `Identity`. Slack's own fetch and the scope metadata of presets are not modelled either.
- Importing provider modules and caching the registrations: the modules are given as data.
- The values of the profile fields a Microsoft identity copies from the userinfo (`email`, `name`, `avatar_url`); only their being texts is modelled.
- Messages, chaining and logging of exceptions; the model has the kind of each error.
- What replaces bytes that are not UTF-8 when a query is read: they become U+FFFD, and no theorem says how many.
- Times are reals; rounding of floating-point clocks is not modelled.
- `Flow` has only calls that use the store when they have a state. A client without a store behaves like one given no state, as `OAuthClient.ExchangeCode` says; states that other code saves into the store directly are not part of the runs.
