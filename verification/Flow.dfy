/**
 * The authorization-code flow as an interleaving of calls that share one store. Each call
 * of client.py is a coroutine cut at its awaits; any call may take its next step at any
 * moment, or be cancelled while it waits. The calls may belong to different clients.
 */
module Flow {
  import opened Wrappers
  import opened Base64Url
  import opened Pkce
  import opened ProviderConfigs
  import opened QueryStrings
  import opened Stores
  import opened Client
  import opened McpConfig

  /** What no step changes: the store's maximum age and the hash function. */
  datatype Env = Env(maxAge: real, sha256: Digest)

  datatype AuthorizePoint = Saving | Returned | Abandoned

  datatype ExchangePoint = Consuming | Sending | Awaiting | Finished(result: Result<TokenSet, OAuthError>) | Dropped

  datatype Call =
      /** `get_authorization_url`, once the pending state is built; `asked` is the redirect URI it was given. */
    | Authorize(config: ProviderConfig, query: string, asked: Option<string>, metadata: Option<Metadata>,
                random: (seq<byte>, seq<byte>), pending: PendingState, url: string, saving: AuthorizePoint)
      /** `exchange_code`; `redeemed` is the pending state it consumed, if it consumed one. */
    | Exchange(config: ProviderConfig, code: string, state: Option<string>, redirectUri: Option<string>,
               verifier: Option<string>, iss: Option<string>, redeemed: Option<PendingState>, point: ExchangePoint)

  datatype Event =
      /** A state went in; `pruned` are the keys dropped first, `replaced` whether its own key was taken. */
    | Stored(call: nat, pending: PendingState, pruned: set<string>, replaced: bool)
    | Redemption(call: nat, pending: PendingState, at: real)
    | Lapse(call: nat, key: string)
    | Miss(call: nat, key: string)
      /** A token request, and the key of the state it was sent for, if it was sent for one. */
    | Request(call: nat, via: Option<string>, form: Form)

  datatype World = World(now: real, entries: Entries, calls: seq<Call>, history: seq<Event>)

  datatype Step =
    | Tick(until: real)
    | StartAuthorize(config: ProviderConfig, query: string, redirectUri: Option<string>, metadata: Option<Metadata>,
                     random: (seq<byte>, seq<byte>))
    | SaveState(call: nat, readings: map<string, real>, until: real)
    | StartExchange(config: ProviderConfig, code: string, state: Option<string>, redirectUri: Option<string>,
                    verifier: Option<string>, iss: Option<string>)
    | ConsumeState(call: nat, at: real, until: real)
    | SendRequest(call: nat)
    | Answer(call: nat, outcome: TokenOutcome)
    | Cancel(call: nat)

  /** When a step can be taken. Nothing is asked of the clock, which may be set back at any time. */
  ghost predicate Enabled(world: World, step: Step)
  {
    match step
    case Tick(_) => true
    case StartAuthorize(config, _, _, _, random) => IsConfig(config) && |random.0| == 32 && |random.1| == 32
    case SaveState(call, readings, _) =>
      && call < |world.calls| && world.calls[call].Authorize? && world.calls[call].saving.Saving?
      && readings.Keys == world.entries.Keys
    case StartExchange(config, _, _, _, _, _) => IsConfig(config)
    case ConsumeState(call, _, _) =>
      call < |world.calls| && world.calls[call].Exchange? && world.calls[call].point.Consuming?
    case SendRequest(call) => call < |world.calls| && world.calls[call].Exchange? && world.calls[call].point.Sending?
    case Answer(call, _) => call < |world.calls| && world.calls[call].Exchange? && world.calls[call].point.Awaiting?
    case Cancel(call) =>
      && call < |world.calls|
      && match world.calls[call]
         case Authorize(_, _, _, _, _, _, _, saving) => saving.Saving?
         case Exchange(_, _, _, _, _, _, _, point) => !point.Finished? && !point.Dropped?
  }

  /** The call `get_authorization_url` becomes once it has built its URL; none without a redirect URI. */
  function Authorized(env: Env, now: real, config: ProviderConfig, query: string, redirectUri: Option<string>,
                      metadata: Option<Metadata>, random: (seq<byte>, seq<byte>)): Option<Call>
  {
    match EffectiveRedirect(config, redirectUri)
    case None => None
    case Some(redirect) =>
      var verifier := if config.usePkce then Some(GenerateCodeVerifier(random.1)) else None;
      var token := TokenUrlsafe(random.0);
      Some(Authorize(config, query, redirectUri, metadata, random, NewPending(redirect, token, verifier, now, metadata),
                     AuthorizationQuery(config, query, redirect, token, verifier, env.sha256), Saving))
  }

  /** The form a call sends: from the state it redeemed, or from its arguments when it used none. */
  function FormOf(call: Call): Form
    requires call.Exchange?
  {
    match call.redeemed
    case Some(pending) => TokenForm(call.config, call.code, Some(pending.redirectUri), pending.codeVerifier)
    case None => TokenForm(call.config, call.code, call.redirectUri, call.verifier)
  }

  function ViaOf(call: Call): Option<string>
    requires call.Exchange?
  {
    if call.redeemed.Some? then Some(call.redeemed.value.state) else None
  }

  function ContextOf(call: Call): Metadata
    requires call.Exchange?
  {
    if call.redeemed.Some? then call.redeemed.value.metadata else map[]
  }

  /** The key of a call that goes through the store. */
  function KeyOf(call: Call): string
    requires call.Exchange?
  {
    if call.state.Some? then call.state.value else ""
  }

  /** What a consume that found `found` leaves in the history. */
  function ConsumeEvent(world: World, call: nat, found: Option<PendingState>, at: real): Event
    requires call < |world.calls| && world.calls[call].Exchange?
  {
    var key := KeyOf(world.calls[call]);
    if found.Some? then Redemption(call, found.value, at)
    else if key in world.entries then Lapse(call, key) else Miss(call, key)
  }

  /** The world after a step. */
  function Do(env: Env, world: World, step: Step): World
    requires Enabled(world, step)
  {
    match step
    case Tick(until) => world.(now := until)
    case StartAuthorize(config, query, redirectUri, metadata, random) =>
      (match Authorized(env, world.now, config, query, redirectUri, metadata, random)
       case None => world
       case Some(call) => world.(calls := world.calls + [call]))
    case SaveState(call, readings, until) =>
      var pending := world.calls[call].pending;
      var kept := Pruned(world.entries, env.maxAge, readings);
      World(until,
            Saved(world.entries, env.maxAge, readings, pending),
            world.calls[call := world.calls[call].(saving := Returned)],
            world.history + [Stored(call, pending, world.entries.Keys - kept.Keys, pending.state in kept)])
    case StartExchange(config, code, state, redirectUri, verifier, iss) =>
      var point :=
        if !IssuerAccepted(config, iss) then Finished(Err(IssuerRejected))
        else if state.Some? then Consuming else Sending;
      world.(calls := world.calls + [Exchange(config, code, state, redirectUri, verifier, iss, None, point)])
    case ConsumeState(call, at, until) =>
      var key := KeyOf(world.calls[call]);
      var found := Redeemed(world.entries, env.maxAge, key, at);
      var point := if found.Some? then Sending else Finished(Err(InvalidState));
      World(until, world.entries - {key}, world.calls[call := world.calls[call].(redeemed := found, point := point)],
            world.history + [ConsumeEvent(world, call, found, at)])
    case SendRequest(call) =>
      world.(calls := world.calls[call := world.calls[call].(point := Awaiting)],
             history := world.history + [Request(call, ViaOf(world.calls[call]), FormOf(world.calls[call]))])
    case Answer(call, outcome) =>
      var result := ExchangeResult(outcome, ContextOf(world.calls[call]));
      world.(calls := world.calls[call := world.calls[call].(point := Finished(result))])
    case Cancel(call) =>
      (match world.calls[call]
       case Authorize(_, _, _, _, _, _, _, _) =>
         world.(calls := world.calls[call := world.calls[call].(saving := Abandoned)])
       case Exchange(_, _, _, _, _, _, _, _) =>
         world.(calls := world.calls[call := world.calls[call].(point := Dropped)]))
  }

  /** Every run: any steps, each enabled where it is taken, from an empty store. */
  ghost predicate IsRun(env: Env, start: real, steps: seq<Step>)
    decreases |steps|, 0
  {
    steps == [] ||
    (IsRun(env, start, steps[..|steps| - 1]) && Enabled(After(env, start, steps[..|steps| - 1]), steps[|steps| - 1]))
  }

  ghost function After(env: Env, start: real, steps: seq<Step>): World
    requires IsRun(env, start, steps)
    decreases |steps|, 1
  {
    if steps == [] then World(start, map[], [], [])
    else Do(env, After(env, start, steps[..|steps| - 1]), steps[|steps| - 1])
  }

  /** The step's clock readings lie between the moments it starts and ends. */
  ghost predicate IsOnTime(world: World, step: Step)
  {
    match step
    case Tick(until) => world.now <= until
    case SaveState(_, readings, until) =>
      world.now <= until && forall key :: key in readings ==> world.now <= readings[key] <= until
    case ConsumeState(_, at, until) => world.now <= at <= until
    case _ => true
  }

  /** In this run the clock was never set back. */
  ghost predicate ClockAdvances(env: Env, start: real, steps: seq<Step>)
    requires IsRun(env, start, steps)
  {
    steps == [] ||
    var prefix := steps[..|steps| - 1];
    ClockAdvances(env, start, prefix) && IsOnTime(After(env, start, prefix), steps[|steps| - 1])
  }

  // -----  Conservation: every state saved is redeemed, lost or still there  -----

  /** How often an event saves a state under the key. */
  function SavesOf(event: Event, key: string): nat
  {
    if event.Stored? && event.pending.state == key then 1 else 0
  }

  function RedemptionsOf(event: Event, key: string): nat
  {
    if event.Redemption? && event.pending.state == key then 1 else 0
  }

  /** A state is lost when it is pruned, replaced by a save under the same key, or consumed too late. */
  function LossesOf(event: Event, key: string): nat
  {
    match event
    case Stored(_, pending, pruned, replaced) =>
      (if key in pruned then 1 else 0) + (if pending.state == key && replaced then 1 else 0)
    case Lapse(_, lapsed) => if lapsed == key then 1 else 0
    case _ => 0
  }

  function RequestsOf(event: Event, key: string): nat
  {
    if event.Request? && event.via == Some(key) then 1 else 0
  }

  ghost function Saves(history: seq<Event>, key: string): nat
  {
    if history == [] then 0 else Saves(history[..|history| - 1], key) + SavesOf(history[|history| - 1], key)
  }

  ghost function Redemptions(history: seq<Event>, key: string): nat
  {
    if history == [] then 0 else Redemptions(history[..|history| - 1], key) + RedemptionsOf(history[|history| - 1], key)
  }

  ghost function Losses(history: seq<Event>, key: string): nat
  {
    if history == [] then 0 else Losses(history[..|history| - 1], key) + LossesOf(history[|history| - 1], key)
  }

  /** How many token requests were sent for a state. */
  ghost function Requests(history: seq<Event>, key: string): nat
  {
    if history == [] then 0 else Requests(history[..|history| - 1], key) + RequestsOf(history[|history| - 1], key)
  }

  lemma OneMore(history: seq<Event>, event: Event, key: string)
    ensures Saves(history + [event], key) == Saves(history, key) + SavesOf(event, key)
    ensures Redemptions(history + [event], key) == Redemptions(history, key) + RedemptionsOf(event, key)
    ensures Losses(history + [event], key) == Losses(history, key) + LossesOf(event, key)
    ensures Requests(history + [event], key) == Requests(history, key) + RequestsOf(event, key)
  {
    assert (history + [event])[..|history|] == history;
  }

  /** Saves are redemptions, losses and what is still held. */
  ghost predicate Balanced(history: seq<Event>, entries: Entries, key: string)
  {
    Saves(history, key) == Redemptions(history, key) + Losses(history, key) + (if key in entries then 1 else 0)
  }

  lemma SaveBalances(
    history: seq<Event>, entries: Entries, kept: Entries, call: nat, pending: PendingState, key: string)
    requires Balanced(history, entries, key) && kept.Keys <= entries.Keys
    ensures Balanced(history + [Stored(call, pending, entries.Keys - kept.Keys, pending.state in kept)],
                     kept[pending.state := pending], key)
  {
    OneMore(history, Stored(call, pending, entries.Keys - kept.Keys, pending.state in kept), key);
  }

  lemma ConsumeBalances(history: seq<Event>, entries: Entries, taken: string, event: Event, key: string)
    requires Balanced(history, entries, key)
    requires match event
             case Redemption(_, pending, _) => pending.state == taken && taken in entries
             case Lapse(_, lapsed) => lapsed == taken && taken in entries
             case Miss(_, _) => taken !in entries
             case _ => false
    ensures Balanced(history + [event], entries - {taken}, key)
  {
    OneMore(history, event, key);
  }

  /** A state is stored under its own key. */
  ghost predicate KeyedByState(entries: Entries)
  {
    forall key :: key in entries ==> entries[key].state == key
  }

  lemma {:induction false} KeysAlwaysMatch(env: Env, start: real, steps: seq<Step>)
    requires IsRun(env, start, steps)
    ensures KeyedByState(After(env, start, steps).entries)
  {
    if steps != [] {
      KeysAlwaysMatch(env, start, steps[..|steps| - 1]);
    }
  }

  lemma BalanceKept(env: Env, before: World, step: Step, key: string)
    requires Enabled(before, step) && KeyedByState(before.entries) && Balanced(before.history, before.entries, key)
    ensures Balanced(Do(env, before, step).history, Do(env, before, step).entries, key)
  {
    match step
    case SaveState(call, readings, _) =>
      SaveBalances(before.history, before.entries, Pruned(before.entries, env.maxAge, readings), call,
                   before.calls[call].pending, key);
    case ConsumeState(call, at, _) =>
      var taken := KeyOf(before.calls[call]);
      var found := Redeemed(before.entries, env.maxAge, taken, at);
      ConsumeBalances(before.history, before.entries, taken, ConsumeEvent(before, call, found, at), key);
    case SendRequest(call) =>
      OneMore(before.history, Request(call, ViaOf(before.calls[call]), FormOf(before.calls[call])), key);
    case _ =>
  }

  /** In every run, for every key, saves are redemptions, losses and what the store still holds. */
  lemma {:induction false} ConservationLaw(env: Env, start: real, steps: seq<Step>, key: string)
    requires IsRun(env, start, steps)
    ensures Balanced(After(env, start, steps).history, After(env, start, steps).entries, key)
  {
    if steps != [] {
      ConservationLaw(env, start, steps[..|steps| - 1], key);
      KeysAlwaysMatch(env, start, steps[..|steps| - 1]);
      BalanceKept(env, After(env, start, steps[..|steps| - 1]), steps[|steps| - 1], key);
    }
  }

  // -----  Single redemption  -----

  /** The call has redeemed the state and not yet sent its request. */
  predicate IsHolding(call: Call, key: string)
  {
    call.Exchange? && call.point.Sending? && ViaOf(call) == Some(key)
  }

  /** The call has saved a state under the key. */
  predicate HasSaved(call: Call, key: string)
  {
    call.Authorize? && call.saving.Returned? && call.pending.state == key
  }

  ghost function Holding(calls: seq<Call>, key: string): set<int>
  {
    set i | 0 <= i < |calls| && IsHolding(calls[i], key)
  }

  ghost function Savers(calls: seq<Call>, key: string): set<int>
  {
    set i | 0 <= i < |calls| && HasSaved(calls[i], key)
  }

  /** Requests are covered by redemptions, and each save is one call's. */
  ghost predicate Counted(history: seq<Event>, calls: seq<Call>, key: string)
  {
    && Requests(history, key) + |Holding(calls, key)| <= Redemptions(history, key)
    && Saves(history, key) == |Savers(calls, key)|
  }

  lemma CallAdded(calls: seq<Call>, call: Call, key: string)
    requires !IsHolding(call, key) && !HasSaved(call, key)
    ensures Holding(calls + [call], key) == Holding(calls, key)
    ensures Savers(calls + [call], key) == Savers(calls, key)
  {
  }

  /** Two sets that differ at most in one place. */
  lemma OneMoved(before: set<int>, after: set<int>, i: int)
    requires before - {i} == after - {i}
    ensures |after| == |before| - (if i in before then 1 else 0) + (if i in after then 1 else 0)
  {
    var rest := before - {i};
    assert before == if i in before then rest + {i} else rest;
    assert after == if i in after then rest + {i} else rest;
  }

  lemma HoldingMoved(calls: seq<Call>, i: nat, call: Call, key: string)
    requires i < |calls|
    ensures |Holding(calls[i := call], key)|
            == |Holding(calls, key)| - (if IsHolding(calls[i], key) then 1 else 0)
               + (if IsHolding(call, key) then 1 else 0)
  {
    OneMoved(Holding(calls, key), Holding(calls[i := call], key), i);
  }

  lemma SaversMoved(calls: seq<Call>, i: nat, call: Call, key: string)
    requires i < |calls|
    ensures |Savers(calls[i := call], key)|
            == |Savers(calls, key)| - (if HasSaved(calls[i], key) then 1 else 0)
               + (if HasSaved(call, key) then 1 else 0)
  {
    OneMoved(Savers(calls, key), Savers(calls[i := call], key), i);
  }

  lemma CountsAdded(history: seq<Event>, calls: seq<Call>, call: Call, key: string)
    requires Counted(history, calls, key) && !IsHolding(call, key) && !HasSaved(call, key)
    ensures Counted(history, calls + [call], key)
  {
    CallAdded(calls, call, key);
  }

  lemma CountsMoved(history: seq<Event>, calls: seq<Call>, i: nat, call: Call, key: string)
    requires i < |calls| && Counted(history, calls, key)
    requires HasSaved(calls[i], key) == HasSaved(call, key) && (IsHolding(call, key) ==> IsHolding(calls[i], key))
    ensures Counted(history, calls[i := call], key)
  {
    HoldingMoved(calls, i, call, key);
    SaversMoved(calls, i, call, key);
  }

  lemma CountsLogged(history: seq<Event>, calls: seq<Call>, i: nat, call: Call, event: Event, key: string)
    requires i < |calls| && Counted(history, calls, key)
    requires !HasSaved(calls[i], key) && SavesOf(event, key) == if HasSaved(call, key) then 1 else 0
    requires RequestsOf(event, key) + (if IsHolding(call, key) then 1 else 0)
             <= RedemptionsOf(event, key) + (if IsHolding(calls[i], key) then 1 else 0)
    ensures Counted(history + [event], calls[i := call], key)
  {
    HoldingMoved(calls, i, call, key);
    SaversMoved(calls, i, call, key);
    OneMore(history, event, key);
  }

  lemma CountsKept(env: Env, before: World, step: Step, key: string)
    requires Enabled(before, step) && Counted(before.history, before.calls, key)
    ensures Counted(Do(env, before, step).history, Do(env, before, step).calls, key)
  {
    var history, calls := before.history, before.calls;
    match step
    case Tick(_) =>
    case StartAuthorize(config, query, redirectUri, metadata, random) =>
      var call := Authorized(env, before.now, config, query, redirectUri, metadata, random);
      if call.Some? {
        CountsAdded(history, calls, call.value, key);
      }
    case StartExchange(config, code, state, redirectUri, verifier, iss) =>
      var after := Do(env, before, step).calls;
      assert after == calls + [after[|calls|]];
      CountsAdded(history, calls, after[|calls|], key);
    case SaveState(call, readings, _) =>
      var after := Do(env, before, step);
      CountsLogged(history, calls, call, after.calls[call], after.history[|history|], key);
    case ConsumeState(call, at, _) =>
      var found := Redeemed(before.entries, env.maxAge, KeyOf(calls[call]), at);
      CountsLogged(history, calls, call, Do(env, before, step).calls[call], ConsumeEvent(before, call, found, at), key);
    case SendRequest(call) =>
      var request := Request(call, ViaOf(calls[call]), FormOf(calls[call]));
      CountsLogged(history, calls, call, calls[call].(point := Awaiting), request, key);
    case Answer(call, _) =>
      CountsMoved(history, calls, call, Do(env, before, step).calls[call], key);
    case Cancel(call) =>
      CountsMoved(history, calls, call, Do(env, before, step).calls[call], key);
  }

  lemma {:induction false} CountsAlways(env: Env, start: real, steps: seq<Step>, key: string)
    requires IsRun(env, start, steps)
    ensures Counted(After(env, start, steps).history, After(env, start, steps).calls, key)
  {
    if steps == [] {
      assert Holding([], key) == {} && Savers([], key) == {};
    } else {
      CountsAlways(env, start, steps[..|steps| - 1], key);
      CountsKept(env, After(env, start, steps[..|steps| - 1]), steps[|steps| - 1], key);
    }
  }

  /** No two authorization calls drew the same random bytes for their token. */
  ghost predicate DistinctDraws(calls: seq<Call>)
  {
    forall i, j :: 0 <= i < j < |calls| && calls[i].Authorize? && calls[j].Authorize?
                   ==> calls[i].random.0 != calls[j].random.0
  }

  /**
   * Single redemption, over every interleaving: a state is redeemed at most as often as it was
   * saved, and requests sent for it are at most its redemptions.
   */
  lemma RedeemedAtMostAsOftenAsSaved(env: Env, start: real, steps: seq<Step>, key: string)
    requires IsRun(env, start, steps)
    ensures var world := After(env, start, steps);
            Requests(world.history, key) <= Redemptions(world.history, key) <= Saves(world.history, key)
  {
    ConservationLaw(env, start, steps, key);
    CountsAlways(env, start, steps, key);
  }

  /** The call's token is the one its random bytes spell. */
  predicate Drawn(call: Call)
  {
    call.Authorize? && call.pending.state == TokenUrlsafe(call.random.0)
  }

  /** With distinct draws only one call can have saved a given state. */
  lemma OneSaver(calls: seq<Call>, key: string)
    requires DistinctDraws(calls) && forall i :: 0 <= i < |calls| && calls[i].Authorize? ==> Drawn(calls[i])
    ensures |Savers(calls, key)| <= 1
  {
    var savers := Savers(calls, key);
    if savers != {} {
      var i :| i in savers;
      forall j | j in savers ensures j == i {
        TokensAreDistinct(calls[i].random.0, calls[j].random.0);
      }
      assert savers == {i};
    }
  }

  // -----  Where a token request comes from  -----

  /** What an authorization call is, at every point: the state and the URL of one flow. */
  ghost predicate Built(env: Env, call: Call)
  {
    && call.Authorize? && IsConfig(call.config) && Drawn(call)
    && |call.random.0| == 32 && |call.random.1| == 32
    && IsChosen(call.pending.redirectUri, call.asked, call.config.redirectUri)
    && IsContext(call.pending.metadata, call.metadata)
    && call.pending.codeVerifier == (if call.config.usePkce then Some(GenerateCodeVerifier(call.random.1)) else None)
    && call.url == AuthorizationQuery(call.config, call.query, call.pending.redirectUri, call.pending.state,
                                      call.pending.codeVerifier, env.sha256)
  }

  /** What an exchange call is: past the issuer check, past the store if it goes through the store. */
  predicate InProgress(call: Call)
  {
    && call.Exchange? && IssuerAccepted(call.config, call.iss)
    && (call.state.None? <==> call.redeemed.None?)
  }

  ghost predicate CallOk(env: Env, call: Call)
  {
    match call
    case Authorize(_, _, _, _, _, _, _, _) => Built(env, call)
    case Exchange(config, _, state, _, _, iss, redeemed, point) =>
      && (redeemed.Some? ==> state == Some(redeemed.value.state))
      && (point == Finished(Err(IssuerRejected)) <==> !IssuerAccepted(config, iss))
      && match point
         case Consuming => IssuerAccepted(config, iss) && state.Some? && redeemed.None?
         case Sending => InProgress(call)
         case Awaiting => InProgress(call)
         case Finished(Ok(tokens)) => InProgress(call) && tokens.context == ContextOf(call)
         case _ => true
  }

  ghost predicate CallsOk(env: Env, calls: seq<Call>)
  {
    forall i :: 0 <= i < |calls| ==> CallOk(env, calls[i])
  }

  lemma BuiltAtStart(env: Env, now: real, config: ProviderConfig, query: string, redirectUri: Option<string>,
                     metadata: Option<Metadata>, random: (seq<byte>, seq<byte>))
    requires IsConfig(config) && |random.0| == 32 && |random.1| == 32
    ensures var call := Authorized(env, now, config, query, redirectUri, metadata, random);
            call.Some? ==> Built(env, call.value)
  {
    EffectiveIsChosen(config, redirectUri);
  }

  /**
   * How an authorization starts: with a redirect URI to be had it builds the state and the URL of
   * one flow out of what it was given, dated at that moment; without one it changes nothing.
   */
  lemma AuthorizationStarts(env: Env, world: World, step: Step)
    requires step.StartAuthorize? && Enabled(world, step)
    ensures var after := Do(env, world, step);
            if IsNonEmpty(step.redirectUri) || IsNonEmpty(step.config.redirectUri) then
              && |after.calls| == |world.calls| + 1
              && after == world.(calls := world.calls + [after.calls[|world.calls|]])
              && var call := after.calls[|world.calls|];
              && Built(env, call) && call.saving.Saving? && call.pending.createdAt == world.now
              && call.config == step.config && call.query == step.query && call.random == step.random
              && call.asked == step.redirectUri && call.metadata == step.metadata
            else after == world
  {
    BuiltAtStart(env, world.now, step.config, step.query, step.redirectUri, step.metadata, step.random);
  }

  lemma StepKeepsCalls(env: Env, before: World, step: Step)
    requires Enabled(before, step) && CallsOk(env, before.calls) && KeyedByState(before.entries)
    ensures CallsOk(env, Do(env, before, step).calls)
  {
    var after := Do(env, before, step);
    forall i | 0 <= i < |after.calls| ensures CallOk(env, after.calls[i]) {
      if i < |before.calls| {
        assert CallOk(env, before.calls[i]);
      } else if step.StartAuthorize? {
        BuiltAtStart(env, before.now, step.config, step.query, step.redirectUri, step.metadata, step.random);
      }
    }
  }

  lemma {:induction false} CallsAlwaysOk(env: Env, start: real, steps: seq<Step>)
    requires IsRun(env, start, steps)
    ensures CallsOk(env, After(env, start, steps).calls)
  {
    if steps != [] {
      var before, step := After(env, start, steps[..|steps| - 1]), steps[|steps| - 1];
      CallsAlwaysOk(env, start, steps[..|steps| - 1]);
      KeysAlwaysMatch(env, start, steps[..|steps| - 1]);
      StepKeepsCalls(env, before, step);
    }
  }

  /** With distinct tokens, however the calls interleave, at most one token request goes out for a state. */
  lemma AtMostOneRequestPerState(env: Env, start: real, steps: seq<Step>, key: string)
    requires IsRun(env, start, steps) && DistinctDraws(After(env, start, steps).calls)
    ensures Requests(After(env, start, steps).history, key) <= Redemptions(After(env, start, steps).history, key) <= 1
  {
    var world := After(env, start, steps);
    CallsAlwaysOk(env, start, steps);
    assert forall i :: 0 <= i < |world.calls| && world.calls[i].Authorize? ==> CallOk(env, world.calls[i]);
    OneSaver(world.calls, key);
    CountsAlways(env, start, steps, key);
    RedeemedAtMostAsOftenAsSaved(env, start, steps, key);
  }

  predicate IsSource(calls: seq<Call>, i: int, pending: PendingState)
  {
    0 <= i < |calls| && calls[i].Authorize? && calls[i].saving.Returned? && calls[i].pending == pending
  }

  /** The pending state is the one some authorization call built and saved. */
  ghost predicate HasSource(calls: seq<Call>, pending: PendingState)
  {
    exists i :: IsSource(calls, i, pending)
  }

  /** Everything in the store and everything redeemed from it was built by a call. */
  ghost predicate Sourced(world: World)
  {
    && (forall key :: key in world.entries ==> HasSource(world.calls, world.entries[key]))
    && (forall i :: 0 <= i < |world.calls| && world.calls[i].Exchange? && world.calls[i].redeemed.Some?
                    ==> HasSource(world.calls, world.calls[i].redeemed.value))
  }

  lemma SourceKept(env: Env, before: World, step: Step, pending: PendingState)
    requires Enabled(before, step) && HasSource(before.calls, pending)
    ensures HasSource(Do(env, before, step).calls, pending)
  {
    var i :| IsSource(before.calls, i, pending);
    assert IsSource(Do(env, before, step).calls, i, pending);
  }

  lemma StepKeepsSources(env: Env, before: World, step: Step)
    requires Enabled(before, step) && Sourced(before)
    ensures Sourced(Do(env, before, step))
  {
    var after := Do(env, before, step);
    forall key | key in after.entries ensures HasSource(after.calls, after.entries[key]) {
      if step.SaveState? && key == before.calls[step.call].pending.state {
        assert IsSource(after.calls, step.call, after.entries[key]);
      } else {
        SourceKept(env, before, step, before.entries[key]);
      }
    }
    forall i | 0 <= i < |after.calls| && after.calls[i].Exchange? && after.calls[i].redeemed.Some?
      ensures HasSource(after.calls, after.calls[i].redeemed.value)
    {
      SourceKept(env, before, step, after.calls[i].redeemed.value);
    }
  }

  lemma {:induction false} SourcedAlways(env: Env, start: real, steps: seq<Step>)
    requires IsRun(env, start, steps)
    ensures Sourced(After(env, start, steps))
  {
    if steps != [] {
      SourcedAlways(env, start, steps[..|steps| - 1]);
      StepKeepsSources(env, After(env, start, steps[..|steps| - 1]), steps[|steps| - 1]);
    }
  }

  /** The call has sent its request; nothing about the request can change any more. */
  predicate HasSent(call: Call)
  {
    && InProgress(call)
    && (call.point.Awaiting? || call.point.Dropped? || call.point.Finished?)
  }

  /** What the history says of a call agrees with the call, and the call was let past the issuer check. */
  ghost predicate EventOk(env: Env, calls: seq<Call>, event: Event)
  {
    && event.call < |calls|
    && (calls[event.call].Exchange? ==> IssuerAccepted(calls[event.call].config, calls[event.call].iss))
    && match event
       case Request(call, via, form) => HasSent(calls[call]) && form == FormOf(calls[call]) && via == ViaOf(calls[call])
       case Redemption(call, pending, at) =>
         calls[call].Exchange? && calls[call].redeemed == Some(pending) && !IsExpired(pending, env.maxAge, at)
       case Stored(call, pending, _, _) =>
         calls[call].Authorize? && calls[call].saving.Returned? && calls[call].pending == pending
       case _ => true
  }

  ghost predicate EventsOk(env: Env, world: World)
  {
    forall j :: 0 <= j < |world.history| ==> EventOk(env, world.calls, world.history[j])
  }

  /** The same call at a later moment: what it was called with, has saved, redeemed or sent it keeps. */
  predicate IsLater(before: Call, after: Call)
  {
    match before
    case Authorize(_, _, _, _, _, pending, _, saving) =>
      after.Authorize? && after.pending == pending && (saving.Returned? ==> after.saving.Returned?)
    case Exchange(config, code, state, redirectUri, verifier, iss, redeemed, _) =>
      && after.Exchange? && after.config == config && after.code == code && after.state == state
      && after.redirectUri == redirectUri && after.verifier == verifier && after.iss == iss
      && (redeemed.Some? ==> after.redeemed == redeemed)
      && (HasSent(before) ==> HasSent(after) && after.redeemed == redeemed)
  }

  lemma StepMovesOn(env: Env, before: World, step: Step, i: nat)
    requires Enabled(before, step) && CallsOk(env, before.calls) && i < |before.calls|
    ensures i < |Do(env, before, step).calls| && IsLater(before.calls[i], Do(env, before, step).calls[i])
  {
    assert CallOk(env, before.calls[i]);
  }

  /** What the history says of a call stays true. */
  lemma EventStaysOk(env: Env, before: seq<Call>, after: seq<Call>, event: Event)
    requires EventOk(env, before, event) && event.call < |after| && IsLater(before[event.call], after[event.call])
    ensures EventOk(env, after, event)
  {
  }

  lemma NewEventOk(env: Env, before: World, step: Step)
    requires Enabled(before, step) && CallsOk(env, before.calls)
    ensures var after := Do(env, before, step);
            && before.history <= after.history && |after.history| <= |before.history| + 1
            && (|after.history| > |before.history| ==> EventOk(env, after.calls, after.history[|before.history|]))
  {
    if step.SendRequest? {
      assert CallOk(env, before.calls[step.call]);
    }
  }

  lemma StepKeepsEvents(env: Env, before: World, step: Step)
    requires Enabled(before, step) && CallsOk(env, before.calls) && EventsOk(env, before)
    ensures EventsOk(env, Do(env, before, step))
  {
    var after := Do(env, before, step);
    NewEventOk(env, before, step);
    forall j | 0 <= j < |after.history| ensures EventOk(env, after.calls, after.history[j]) {
      if j < |before.history| {
        assert after.history[j] == before.history[j] && EventOk(env, before.calls, before.history[j]);
        StepMovesOn(env, before, step, before.history[j].call);
        EventStaysOk(env, before.calls, after.calls, before.history[j]);
      }
    }
  }

  lemma {:induction false} EventsAlwaysOk(env: Env, start: real, steps: seq<Step>)
    requires IsRun(env, start, steps)
    ensures EventsOk(env, After(env, start, steps))
  {
    if steps != [] {
      EventsAlwaysOk(env, start, steps[..|steps| - 1]);
      CallsAlwaysOk(env, start, steps[..|steps| - 1]);
      StepKeepsEvents(env, After(env, start, steps[..|steps| - 1]), steps[|steps| - 1]);
    }
  }

  /** No other authorization call has this token. */
  ghost predicate OnlySource(calls: seq<Call>, token: string, source: nat)
  {
    forall i :: 0 <= i < |calls| && calls[i].Authorize? && calls[i].pending.state == token ==> i == source
  }

  /**
   * The binding of a flow's two ends. A token request sent for a state carries the redirect URI
   * and the verifier of a call that built and saved that very state, and no others, along with
   * the code handed to the exchange; with distinct tokens that call is the only one the token
   * can belong to.
   */
  lemma RequestIsBound(env: Env, start: real, steps: seq<Step>, j: nat) returns (source: nat)
    requires IsRun(env, start, steps)
    requires j < |After(env, start, steps).history|
    requires After(env, start, steps).history[j].Request? && After(env, start, steps).history[j].via.Some?
    ensures var world := After(env, start, steps);
            var request := world.history[j];
            && source < |world.calls| && Built(env, world.calls[source]) && world.calls[source].saving.Returned?
            && world.calls[source].pending.state == request.via.value
            && "redirect_uri" in request.form
            && IsChosen(request.form["redirect_uri"], world.calls[source].asked, world.calls[source].config.redirectUri)
            && request.form["redirect_uri"] == world.calls[source].pending.redirectUri
            && request.call < |world.calls| && world.calls[request.call].Exchange?
            && world.calls[request.call].state == request.via
            && "code" in request.form && request.form["code"] == world.calls[request.call].code
            && ("code_verifier" in request.form <==> world.calls[source].config.usePkce)
            && ("code_verifier" in request.form ==>
                  request.form["code_verifier"] == GenerateCodeVerifier(world.calls[source].random.1))
            && (DistinctDraws(world.calls) ==> OnlySource(world.calls, request.via.value, source))
  {
    var world := After(env, start, steps);
    EventsAlwaysOk(env, start, steps);
    CallsAlwaysOk(env, start, steps);
    SourcedAlways(env, start, steps);
    var request := world.history[j];
    assert EventOk(env, world.calls, request);
    var sender := world.calls[request.call];
    assert HasSource(world.calls, sender.redeemed.value);
    source :| IsSource(world.calls, source, sender.redeemed.value);
    assert CallOk(env, world.calls[source]);
    VerifierIsWellFormed(world.calls[source].random.1);
    assert "" != GenerateCodeVerifier(world.calls[source].random.1);
    if DistinctDraws(world.calls) {
      forall i | 0 <= i < |world.calls| && world.calls[i].Authorize?
                 && world.calls[i].pending.state == request.via.value
        ensures i == source
      {
        assert CallOk(env, world.calls[i]);
        TokensAreDistinct(world.calls[i].random.0, world.calls[source].random.0);
      }
    }
  }

  /** The field is there with this value, or is not there at all. */
  ghost predicate Carries(form: Form, name: string, value: Option<string>)
  {
    if value.Some? then name in form && form[name] == value.value else name !in form
  }

  /** Every request carries the code and the resource of its exchange; one sent for no state, also its arguments. */
  lemma RequestIsItsExchanges(env: Env, start: real, steps: seq<Step>, j: nat)
    requires IsRun(env, start, steps)
    requires j < |After(env, start, steps).history| && After(env, start, steps).history[j].Request?
    ensures var world := After(env, start, steps);
            var request := world.history[j];
            && request.call < |world.calls| && world.calls[request.call].Exchange?
            && var sender := world.calls[request.call];
            && request.via == sender.state
            && Carries(request.form, "grant_type", Some("authorization_code"))
            && Carries(request.form, "code", Some(sender.code))
            && Carries(request.form, "resource", sender.config.resource)
            && (request.via.None? ==>
                  && Carries(request.form, "redirect_uri",
                             if IsNonEmpty(sender.redirectUri) then sender.redirectUri else None)
                  && Carries(request.form, "code_verifier",
                             if IsNonEmpty(sender.verifier) then sender.verifier else None))
  {
    var world := After(env, start, steps);
    EventsAlwaysOk(env, start, steps);
    CallsAlwaysOk(env, start, steps);
    assert EventOk(env, world.calls, world.history[j]);
    assert CallOk(env, world.calls[world.history[j].call]);
  }

  /** The server reads this value for the key exactly when no extra parameter gives the key another one. */
  ghost predicate ReadsExactly(call: Call, key: string, value: string)
    requires call.Authorize?
  {
    Values(FormDecode(call.url, true), key) == [value] <==> Leaves(call.config, key, value)
  }

  lemma ProtocolRead(env: Env, call: Call, key: string, value: string)
    requires Built(env, call) && key != "resource"
    requires var pending := call.pending;
             ProtocolValue(call.config, pending.redirectUri, pending.state, pending.codeVerifier, env.sha256, key)
             == Some(value)
    ensures ReadsExactly(call, key, value)
  {
    var config, pending := call.config, call.pending;
    ReadAsSetExactly(config, call.query, pending.redirectUri, pending.state, pending.codeVerifier, env.sha256, key);
  }

  /** What the authorization server reads in the URL of a call. */
  lemma UrlSays(env: Env, call: Call)
    requires Built(env, call)
    ensures ReadsExactly(call, "state", call.pending.state)
    ensures ReadsExactly(call, "redirect_uri", call.pending.redirectUri)
    ensures call.config.usePkce ==> ReadsExactly(call, "code_challenge_method", "S256")
    ensures call.config.usePkce ==>
              ReadsExactly(call, "code_challenge",
                           GenerateCodeChallenge(GenerateCodeVerifier(call.random.1), env.sha256))
  {
    var config, pending := call.config, call.pending;
    ProtocolGives(config, pending.redirectUri, pending.state, pending.codeVerifier, env.sha256);
    ProtocolRead(env, call, "state", pending.state);
    ProtocolRead(env, call, "redirect_uri", pending.redirectUri);
    if config.usePkce {
      ProtocolRead(env, call, "code_challenge_method", "S256");
      ProtocolRead(env, call, "code_challenge", GenerateCodeChallenge(GenerateCodeVerifier(call.random.1), env.sha256));
    }
  }

  /**
   * Proof of possession end to end (RFC 7636). What the authorization server read out of the
   * URL as the challenge is the S256 image of the verifier the token request later carries, and
   * the redirect URI and the token it read are those of the request: each exactly when the extra
   * parameters give that key no other value.
   */
  lemma ChallengeMeetsVerifier(env: Env, start: real, steps: seq<Step>, j: nat) returns (source: nat)
    requires IsRun(env, start, steps)
    requires j < |After(env, start, steps).history|
    requires After(env, start, steps).history[j].Request? && After(env, start, steps).history[j].via.Some?
    ensures var world := After(env, start, steps);
            var request := world.history[j];
            && source < |world.calls| && world.calls[source].Authorize?
            && (DistinctDraws(world.calls) ==> OnlySource(world.calls, request.via.value, source))
            && ReadsExactly(world.calls[source], "state", request.via.value)
            && "redirect_uri" in request.form
            && ReadsExactly(world.calls[source], "redirect_uri", request.form["redirect_uri"])
            && (world.calls[source].config.usePkce ==>
                  && "code_verifier" in request.form
                  && ReadsExactly(world.calls[source], "code_challenge_method", "S256")
                  && ReadsExactly(world.calls[source], "code_challenge",
                                  GenerateCodeChallenge(request.form["code_verifier"], env.sha256)))
  {
    source := RequestIsBound(env, start, steps, j);
    UrlSays(env, After(env, start, steps).calls[source]);
  }

  /** The context on a token set is the metadata of the call that built the state redeemed for it. */
  lemma ContextIsBound(env: Env, start: real, steps: seq<Step>, i: nat) returns (source: nat)
    requires IsRun(env, start, steps)
    requires i < |After(env, start, steps).calls| && After(env, start, steps).calls[i].Exchange?
    requires After(env, start, steps).calls[i].point.Finished? && After(env, start, steps).calls[i].point.result.Ok?
    requires After(env, start, steps).calls[i].state.Some?
    ensures var world := After(env, start, steps);
            && source < |world.calls| && world.calls[source].Authorize? && world.calls[source].saving.Returned?
            && Some(world.calls[source].pending.state) == world.calls[i].state
            && IsContext(world.calls[i].point.result.value.context, world.calls[source].metadata)
            && (DistinctDraws(world.calls) ==> OnlySource(world.calls, world.calls[source].pending.state, source))
  {
    var world := After(env, start, steps);
    CallsAlwaysOk(env, start, steps);
    SourcedAlways(env, start, steps);
    assert CallOk(env, world.calls[i]);
    source :| IsSource(world.calls, source, world.calls[i].redeemed.value);
    assert CallOk(env, world.calls[source]);
    if DistinctDraws(world.calls) {
      forall k | 0 <= k < |world.calls| && world.calls[k].Authorize?
                 && world.calls[k].pending.state == world.calls[source].pending.state
        ensures k == source
      {
        assert CallOk(env, world.calls[k]) && CallOk(env, world.calls[source]);
        TokensAreDistinct(world.calls[k].random.0, world.calls[source].random.0);
      }
    }
  }

  /** No state is redeemed at or past its maximum age, in any run. */
  lemma RedemptionsAreFresh(env: Env, start: real, steps: seq<Step>, j: nat)
    requires IsRun(env, start, steps)
    requires j < |After(env, start, steps).history| && After(env, start, steps).history[j].Redemption?
    ensures var event := After(env, start, steps).history[j];
            event.at - event.pending.createdAt < env.maxAge
  {
    EventsAlwaysOk(env, start, steps);
    assert EventOk(env, After(env, start, steps).calls, After(env, start, steps).history[j]);
  }

  // -----  The issuer check (RFC 9207)  -----

  /** Every token request of a client that knows its issuer, and requires it named, followed that issuer's answer. */
  lemma RequestsFollowTheirIssuer(env: Env, start: real, steps: seq<Step>, j: nat)
    requires IsRun(env, start, steps)
    requires j < |After(env, start, steps).history| && After(env, start, steps).history[j].Request?
    ensures var world := After(env, start, steps);
            var call := world.history[j].call;
            && call < |world.calls| && world.calls[call].Exchange?
            && (world.calls[call].config.issuer.Some? ==>
                  || world.calls[call].iss == world.calls[call].config.issuer
                  || (world.calls[call].iss.None? && !world.calls[call].config.requireIss))
  {
    EventsAlwaysOk(env, start, steps);
    var call := After(env, start, steps).history[j].call;
    assert EventOk(env, After(env, start, steps).calls, After(env, start, steps).history[j]);
    IssuerAcceptedExactly(After(env, start, steps).calls[call].config, After(env, start, steps).calls[call].iss);
  }

  /**
   * For a client configured from discovered metadata: when the server advertises its issuer and
   * that it sends `iss`, no code was ever redeemed on an answer that did not name that issuer.
   */
  lemma DiscoveredIssuerIsFollowed(
    env: Env, start: real, steps: seq<Step>, j: nat, metadata: ServerMetadata, clientId: string,
    secret: Option<string>, registered: Option<string>, scopes: seq<string>, redirectUri: Option<string>,
    resource: Option<string>, hasScheme: string -> bool)
    requires IsRun(env, start, steps)
    requires j < |After(env, start, steps).history| && After(env, start, steps).history[j].Request?
    requires metadata.issuer.Some? && metadata.issParameterSupported
    ensures var world := After(env, start, steps);
            var call := world.history[j].call;
            && call < |world.calls| && world.calls[call].Exchange?
            && (Ok(world.calls[call].config)
                == ToProviderConfig(metadata, clientId, secret, registered, scopes, redirectUri, resource, hasScheme)
                ==> world.calls[call].iss == metadata.issuer)
  {
    RequestsFollowTheirIssuer(env, start, steps, j);
    var world := After(env, start, steps);
    var call := world.history[j].call;
    if Ok(world.calls[call].config)
       == ToProviderConfig(metadata, clientId, secret, registered, scopes, redirectUri, resource, hasScheme)
    {
      BuiltConfigIsBound(metadata, clientId, secret, registered, scopes, redirectUri, resource, hasScheme,
                         world.calls[call].iss);
    }
  }
}
