/**
 * What becomes of callbacks in every run of the flow: refused ones leave no trace, and one
 * that names the right issuer and a state still fresh gets its token request out, whatever
 * other calls do in between.
 */
module Callbacks {
  import opened Wrappers
  import Base64Url
  import opened Pkce
  import opened ProviderConfigs
  import opened Stores
  import opened Client
  import opened Flow

  // -----  Refused callbacks  -----

  /** A callback whose `iss` is refused. */
  predicate IsRejectedCallback(step: Step)
  {
    step.StartExchange? && IsConfig(step.config) && !IssuerAccepted(step.config, step.iss)
  }

  /** The world after any number of refused callbacks. */
  ghost function AfterRejections(env: Env, world: World, callbacks: seq<Step>): World
    requires forall step :: step in callbacks ==> IsRejectedCallback(step)
    decreases |callbacks|
  {
    if callbacks == [] then world
    else
      assert callbacks[0] in callbacks && IsRejectedCallback(callbacks[0]);
      AfterRejections(env, Do(env, world, callbacks[0]), callbacks[1..])
  }

  /** Refused callbacks end at once and touch neither the clock, the store, the history nor any call under way. */
  lemma {:induction false} RejectionsAreInert(env: Env, world: World, callbacks: seq<Step>)
    requires forall step :: step in callbacks ==> IsRejectedCallback(step)
    ensures var after := AfterRejections(env, world, callbacks);
            && after.now == world.now && after.entries == world.entries && after.history == world.history
            && |after.calls| == |world.calls| + |callbacks| && after.calls[..|world.calls|] == world.calls
            && forall i :: |world.calls| <= i < |after.calls| ==>
                 after.calls[i].Exchange? && after.calls[i].point == Finished(Err(IssuerRejected))
    decreases |callbacks|
  {
    if callbacks != [] {
      assert callbacks[0] in callbacks && IsRejectedCallback(callbacks[0]);
      var next := Do(env, world, callbacks[0]);
      RejectionsAreInert(env, next, callbacks[1..]);
      var after := AfterRejections(env, world, callbacks);
      assert after.calls[..|world.calls|] == after.calls[..|next.calls|][..|world.calls|];
      assert after.calls[|world.calls|] == after.calls[..|next.calls|][|world.calls|];
    }
  }

  /** In every run, whatever happened was not the doing of a call whose issuer was refused. */
  lemma RejectedCallsLeaveNoEvent(env: Env, start: real, steps: seq<Step>, j: nat)
    requires IsRun(env, start, steps) && j < |After(env, start, steps).history|
    ensures var world := After(env, start, steps);
            var call := world.history[j].call;
            && call < |world.calls|
            && (world.calls[call].Exchange? ==>
                  && IssuerAccepted(world.calls[call].config, world.calls[call].iss)
                  && world.calls[call].point != Finished(Err(IssuerRejected)))
  {
    var world := After(env, start, steps);
    EventsAlwaysOk(env, start, steps);
    CallsAlwaysOk(env, start, steps);
    assert EventOk(env, world.calls, world.history[j]);
    assert CallOk(env, world.calls[world.history[j].call]);
  }

  // -----  Runs and their parts  -----

  lemma {:induction false} PrefixIsRun(env: Env, start: real, steps: seq<Step>, more: seq<Step>)
    requires IsRun(env, start, steps + more)
    ensures IsRun(env, start, steps)
    decreases |more|
  {
    if more == [] {
      assert steps + more == steps;
    } else {
      var n := |more| - 1;
      assert (steps + more)[..|steps + more| - 1] == steps + more[..n];
      PrefixIsRun(env, start, steps, more[..n]);
    }
  }

  lemma OneMoreStep(env: Env, start: real, steps: seq<Step>, step: Step)
    requires IsRun(env, start, steps)
    ensures IsRun(env, start, steps + [step]) <==> Enabled(After(env, start, steps), step)
    ensures Enabled(After(env, start, steps), step) ==>
              After(env, start, steps + [step]) == Do(env, After(env, start, steps), step)
  {
    assert (steps + [step])[..|steps|] == steps;
  }

  lemma {:induction false} CallsMoveOn(env: Env, start: real, steps: seq<Step>, more: seq<Step>, i: nat)
    requires IsRun(env, start, steps + more) && IsRun(env, start, steps)
    requires i < |After(env, start, steps).calls|
    ensures var after := After(env, start, steps + more);
            i < |after.calls| && IsLater(After(env, start, steps).calls[i], after.calls[i])
    decreases |more|
  {
    if more == [] {
      assert steps + more == steps;
    } else {
      var n := |more| - 1;
      var prefix := steps + more[..n];
      assert (steps + more)[..|steps + more| - 1] == prefix && steps + more == prefix + [more[n]];
      CallsMoveOn(env, start, steps, more[..n], i);
      CallsAlwaysOk(env, start, prefix);
      StepMovesOn(env, After(env, start, prefix), more[n], i);
    }
  }

  // -----  A stored state stays until it is used, replaced or expires  -----

  /** The event saves or consumes under the key, or tries to consume. */
  predicate Touches(event: Flow.Event, key: string)
  {
    match event
    case Stored(_, pending, _, _) => pending.state == key
    case Redemption(_, pending, _) => pending.state == key
    case Lapse(_, lapsed) => lapsed == key
    case Miss(_, missed) => missed == key
    case Request(_, _, _) => false
  }

  /** Event `e` saved the state, and nothing has touched its key since. */
  ghost predicate IsUntouched(history: seq<Flow.Event>, e: nat, pending: PendingState)
  {
    && e < |history| && history[e].Stored? && history[e].pending == pending
    && forall j :: e < j < |history| ==> !Touches(history[j], pending.state)
  }

  /** The state is in the store as it was saved, or it has expired. */
  ghost predicate HeldOrExpired(env: Env, world: World, pending: PendingState)
  {
    || (pending.state in world.entries && world.entries[pending.state] == pending)
    || world.now - pending.createdAt >= env.maxAge
  }

  lemma StepHolds(env: Env, before: World, step: Step, e: nat, pending: PendingState)
    requires Enabled(before, step) && IsOnTime(before, step) && KeyedByState(before.entries)
    requires IsUntouched(Do(env, before, step).history, e, pending)
    requires IsUntouched(before.history, e, pending) ==> HeldOrExpired(env, before, pending)
    ensures HeldOrExpired(env, Do(env, before, step), pending)
  {
    var after := Do(env, before, step);
    if e < |before.history| {
      assert forall j :: 0 <= j < |before.history| ==> after.history[j] == before.history[j];
      assert IsUntouched(before.history, e, pending);
      if |after.history| > |before.history| {
        assert !Touches(after.history[|before.history|], pending.state);
      }
    }
  }

  /**
   * In every run in which the clock was not set back, a state that was saved, and that nothing
   * has consumed or replaced since, is still in the store as it was saved, or has expired.
   */
  lemma {:induction false} StoredStateStays(env: Env, start: real, steps: seq<Step>, e: nat, pending: PendingState)
    requires IsRun(env, start, steps) && ClockAdvances(env, start, steps)
    requires IsUntouched(After(env, start, steps).history, e, pending)
    ensures HeldOrExpired(env, After(env, start, steps), pending)
  {
    if steps != [] {
      var prefix := steps[..|steps| - 1];
      KeysAlwaysMatch(env, start, prefix);
      if IsUntouched(After(env, start, prefix).history, e, pending) {
        StoredStateStays(env, start, prefix, e, pending);
      }
      StepHolds(env, After(env, start, prefix), steps[|steps| - 1], e, pending);
    }
  }

  // -----  A genuine callback succeeds  -----

  /** In every reachable world, consuming an untouched state that is still fresh redeems it. */
  lemma FreshStateIsRedeemed(env: Env, start: real, steps: seq<Step>, e: nat, pending: PendingState,
                             call: nat, at: real, until: real)
    requires IsRun(env, start, steps) && ClockAdvances(env, start, steps)
    requires IsUntouched(After(env, start, steps).history, e, pending)
    requires Enabled(After(env, start, steps), ConsumeState(call, at, until)) && After(env, start, steps).now <= at
    requires KeyOf(After(env, start, steps).calls[call]) == pending.state && at - pending.createdAt < env.maxAge
    ensures var world := After(env, start, steps);
            var after := Do(env, world, ConsumeState(call, at, until));
            && after.calls == world.calls[call := world.calls[call].(redeemed := Some(pending), point := Sending)]
            && after.history == world.history + [Redemption(call, pending, at)]
            && after.entries == world.entries - {pending.state}
  {
    StoredStateStays(env, start, steps, e, pending);
  }

  /** A callback that passes the issuer check and names this state. */
  predicate IsGenuine(step: Step, pending: PendingState)
  {
    && step.StartExchange? && IsConfig(step.config)
    && IssuerAccepted(step.config, step.iss) && step.state == Some(pending.state)
  }

  /** The call has sent its request for this state and waits for the answer. */
  ghost predicate IsAwaiting(calls: seq<Call>, call: nat, pending: PendingState)
  {
    call < |calls| && calls[call].Exchange? && calls[call].point.Awaiting? && calls[call].redeemed == Some(pending)
  }

  ghost predicate Answers(result: Result<TokenSet, OAuthError>, outcome: TokenOutcome, context: Metadata)
  {
    match outcome
    case Failure(code) => result == Err(ExchangeFailed(code))
    case Response(fields, usable) =>
      if "access_token" in fields && usable
      then result.Ok? && result.value.accessToken == fields["access_token"] && result.value.context == context
      else result.Err?
  }

  /** The answer can come, and ends the call with the error it names, or with the token and the state's metadata. */
  lemma AnswerEnds(env: Env, world: World, call: nat, pending: PendingState, outcome: TokenOutcome)
    requires IsAwaiting(world.calls, call, pending)
    ensures Enabled(world, Answer(call, outcome))
    ensures var calls := Do(env, world, Answer(call, outcome)).calls;
            && call < |calls| && calls[call].Exchange? && calls[call].point.Finished?
            && Answers(calls[call].point.result, outcome, pending.metadata)
  {
  }

  /** The request a genuine callback is owed. */
  function OwedRequest(call: nat, genuine: Step, pending: PendingState): Flow.Event
    requires IsGenuine(genuine, pending)
  {
    Request(call, Some(pending.state),
            TokenForm(genuine.config, genuine.code, Some(pending.redirectUri), pending.codeVerifier))
  }

  /** A genuine callback's steps, with anything at all in between. */
  ghost function Interleaved(steps: seq<Step>, genuine: Step, waiting: seq<Step>, consume: Step, holding: seq<Step>,
                             send: Step): seq<Step>
  {
    steps + [genuine] + waiting + [consume] + holding + [send]
  }

  /**
   * However the steps of other calls, refused callbacks among them, fall between those of a
   * genuine one: if nobody has touched its state by the moment it consumes it, and the state is
   * still fresh at that moment, the request it sends is the one it is owed.
   */
  lemma InterleavedCallbackSucceeds(
    env: Env, start: real, steps: seq<Step>, genuine: Step, waiting: seq<Step>, at: real, until: real,
    holding: seq<Step>, e: nat, pending: PendingState)
    requires IsRun(env, start, steps) && IsGenuine(genuine, pending) && at - pending.createdAt < env.maxAge
    requires var call := |After(env, start, steps).calls|;
             IsRun(env, start,
                   Interleaved(steps, genuine, waiting, ConsumeState(call, at, until), holding, SendRequest(call)))
    requires IsRun(env, start, steps + [genuine] + waiting)
    requires ClockAdvances(env, start, steps + [genuine] + waiting)
    requires After(env, start, steps + [genuine] + waiting).now <= at
    requires IsUntouched(After(env, start, steps + [genuine] + waiting).history, e, pending)
    ensures var call := |After(env, start, steps).calls|;
            var history := After(env, start, Interleaved(
                steps, genuine, waiting, ConsumeState(call, at, until), holding, SendRequest(call))).history;
            history != [] && history[|history| - 1] == OwedRequest(call, genuine, pending)
  {
    var call := |After(env, start, steps).calls|;
    var consume, send := ConsumeState(call, at, until), SendRequest(call);
    var started := steps + [genuine];
    var waited := started + waiting;
    var consumed := waited + [consume];
    var held := consumed + holding;
    PrefixIsRun(env, start, held, [send]);
    PrefixIsRun(env, start, consumed, holding);
    PrefixIsRun(env, start, started, waiting);
    OneMoreStep(env, start, steps, genuine);
    CallsMoveOn(env, start, started, waiting, call);
    OneMoreStep(env, start, waited, consume);
    FreshStateIsRedeemed(env, start, waited, e, pending, call, at, until);
    CallsMoveOn(env, start, consumed, holding, call);
    OneMoreStep(env, start, held, send);
  }

  /** A genuine callback can start at any moment, and then waits to consume its state. */
  lemma GenuineStarts(env: Env, start: real, steps: seq<Step>, genuine: Step, pending: PendingState)
    requires IsRun(env, start, steps) && ClockAdvances(env, start, steps) && IsGenuine(genuine, pending)
    ensures IsRun(env, start, steps + [genuine]) && ClockAdvances(env, start, steps + [genuine])
    ensures var world := After(env, start, steps);
            After(env, start, steps + [genuine])
            == world.(calls := world.calls + [Exchange(
                        genuine.config, genuine.code, genuine.state, genuine.redirectUri, genuine.verifier, genuine.iss,
                        None, Consuming)])
  {
    OneMoreStep(env, start, steps, genuine);
    assert (steps + [genuine])[..|steps|] == steps;
  }

  /**
   * In every reachable world, after any refused callbacks and anything else, a genuine callback
   * on an untouched state that is still fresh can be taken, and it gets its request out.
   */
  lemma GenuineCallbackStillSucceeds(env: Env, start: real, steps: seq<Step>, e: nat, pending: PendingState,
                                     genuine: Step, at: real)
    requires IsRun(env, start, steps) && ClockAdvances(env, start, steps)
    requires IsUntouched(After(env, start, steps).history, e, pending)
    requires IsGenuine(genuine, pending) && After(env, start, steps).now <= at && at - pending.createdAt < env.maxAge
    ensures var world := After(env, start, steps);
            var call := |world.calls|;
            var longer := steps + [genuine] + [ConsumeState(call, at, at)] + [SendRequest(call)];
            && IsRun(env, start, longer)
            && After(env, start, longer).history
               == world.history + [Redemption(call, pending, at)] + [OwedRequest(call, genuine, pending)]
            && After(env, start, longer).entries == world.entries - {pending.state}
            && IsAwaiting(After(env, start, longer).calls, call, pending)
  {
    var world := After(env, start, steps);
    var call := |world.calls|;
    var started := steps + [genuine];
    var consume := ConsumeState(call, at, at);
    GenuineStarts(env, start, steps, genuine, pending);
    OneMoreStep(env, start, started, consume);
    FreshStateIsRedeemed(env, start, started, e, pending, call, at, at);
    OneMoreStep(env, start, started + [consume], SendRequest(call));
  }

  /**
   * The endpoint's answer then ends the callback: with the error it named, or with the token and
   * the context its state was built with.
   */
  lemma GenuineCallbackIsAnswered(env: Env, start: real, steps: seq<Step>, e: nat, pending: PendingState,
                                  genuine: Step, at: real, outcome: TokenOutcome)
    requires IsRun(env, start, steps) && ClockAdvances(env, start, steps)
    requires IsUntouched(After(env, start, steps).history, e, pending)
    requires IsGenuine(genuine, pending)
    requires After(env, start, steps).now <= at && at - pending.createdAt < env.maxAge
    ensures var call := |After(env, start, steps).calls|;
            var sent := steps + [genuine] + [ConsumeState(call, at, at)] + [SendRequest(call)];
            var longer := sent + [Answer(call, outcome)];
            && IsRun(env, start, longer)
            && var calls := After(env, start, longer).calls;
            && call < |calls| && calls[call].Exchange? && calls[call].point.Finished?
            && Answers(calls[call].point.result, outcome, pending.metadata)
  {
    var call := |After(env, start, steps).calls|;
    var sent := steps + [genuine] + [ConsumeState(call, at, at)] + [SendRequest(call)];
    GenuineCallbackStillSucceeds(env, start, steps, e, pending, genuine, at);
    AnswerEnds(env, After(env, start, sent), call, pending, outcome);
    OneMoreStep(env, start, sent, Answer(call, outcome));
  }

  /** An exchange without a state, once past the issuer check, sends its own arguments and consumes nothing. */
  lemma DirectExchangeIsSent(env: Env, world: World, step: Step)
    requires step.StartExchange? && IsConfig(step.config) && IssuerAccepted(step.config, step.iss) && step.state.None?
    ensures Enabled(world, step)
    ensures var started := Do(env, world, step);
            var call := |world.calls|;
            && Enabled(started, SendRequest(call))
            && var sent := Do(env, started, SendRequest(call));
            && sent.entries == world.entries
            && sent.history
               == world.history
                  + [Request(call, None, TokenForm(step.config, step.code, step.redirectUri, step.verifier))]
            && call < |sent.calls| && sent.calls[call].Exchange? && sent.calls[call].point.Awaiting?
  {
  }

  // -----  A whole flow  -----

  lemma {:induction false} HistoryGrows(env: Env, start: real, steps: seq<Step>, more: seq<Step>)
    requires IsRun(env, start, steps + more) && IsRun(env, start, steps)
    ensures After(env, start, steps).history <= After(env, start, steps + more).history
    decreases |more|
  {
    if more == [] {
      assert steps + more == steps;
    } else {
      var n := |more| - 1;
      assert (steps + more)[..|steps + more| - 1] == steps + more[..n];
      HistoryGrows(env, start, steps, more[..n]);
    }
  }

  /** An authorization that has a redirect URI to use. */
  ghost predicate IsAuthorization(step: Step)
  {
    step.StartAuthorize? && (IsNonEmpty(step.redirectUri) || IsNonEmpty(step.config.redirectUri))
  }

  /** The state is the one this authorization builds at this moment. */
  ghost predicate IsBuiltBy(pending: PendingState, begin: Step, now: real)
    requires begin.StartAuthorize?
  {
    && pending.createdAt == now && pending.state == TokenUrlsafe(begin.random.0)
    && IsChosen(pending.redirectUri, begin.redirectUri, begin.config.redirectUri)
    && IsContext(pending.metadata, begin.metadata)
    && pending.codeVerifier == if begin.config.usePkce then Some(GenerateCodeVerifier(begin.random.1)) else None
  }

  /** The state an authorization built is stored when it saves it, whatever came in between. */
  lemma AuthorizationIsStored(env: Env, start: real, steps: seq<Step>, begin: Step, waiting: seq<Step>, save: Step)
    returns (pending: PendingState)
    requires IsRun(env, start, steps) && IsAuthorization(begin)
    requires save.SaveState? && save.call == |After(env, start, steps).calls|
    requires IsRun(env, start, steps + [begin] + waiting) && IsRun(env, start, steps + [begin] + waiting + [save])
    ensures var before := After(env, start, steps + [begin] + waiting).history;
            var history := After(env, start, steps + [begin] + waiting + [save]).history;
            |history| == |before| + 1 && history[|before|].Stored? && history[|before|].pending == pending
    ensures IsBuiltBy(pending, begin, After(env, start, steps).now) && |begin.random.1| == 32
  {
    var started := steps + [begin];
    PrefixIsRun(env, start, started, waiting);
    OneMoreStep(env, start, steps, begin);
    OneMoreStep(env, start, started + waiting, save);
    AuthorizationStarts(env, After(env, start, steps), begin);
    CallsMoveOn(env, start, started, waiting, save.call);
    pending := After(env, start, started).calls[save.call].pending;
  }

  /** Nothing has touched the key since this many events. */
  ghost predicate IsUntouchedSince(history: seq<Flow.Event>, e: nat, key: string)
  {
    forall j :: e < j < |history| ==> !Touches(history[j], key)
  }

  lemma VerifierIsNotEmpty(random: seq<Base64Url.byte>)
    requires |random| == 32
    ensures GenerateCodeVerifier(random) != ""
  {
    VerifierIsWellFormed(random);
  }

  /**
   * A whole flow. An authorization starts and, whatever others do meanwhile, saves its state; then
   * others go on, and none of them touches that state. A callback with an accepted issuer that
   * comes within the maximum age of the start gets its request out, and the request carries the
   * redirect URI the authorization chose and the verifier it drew.
   */
  lemma WholeFlowSucceeds(
    env: Env, start: real, steps: seq<Step>, begin: Step, waiting: seq<Step>, save: Step, others: seq<Step>,
    genuine: Step, at: real)
    requires IsRun(env, start, steps) && IsAuthorization(begin)
    requires save.SaveState? && save.call == |After(env, start, steps).calls|
    requires IsRun(env, start, steps + [begin] + waiting) && IsRun(env, start, steps + [begin] + waiting + [save])
    requires IsRun(env, start, steps + [begin] + waiting + [save] + others)
    requires ClockAdvances(env, start, steps + [begin] + waiting + [save] + others)
    requires IsUntouchedSince(After(env, start, steps + [begin] + waiting + [save] + others).history,
                              |After(env, start, steps + [begin] + waiting).history|, TokenUrlsafe(begin.random.0))
    requires genuine.StartExchange? && IsConfig(genuine.config) && IssuerAccepted(genuine.config, genuine.iss)
    requires genuine.state == Some(TokenUrlsafe(begin.random.0))
    requires After(env, start, steps + [begin] + waiting + [save] + others).now <= at
    requires at - After(env, start, steps).now < env.maxAge
    ensures var total := steps + [begin] + waiting + [save] + others;
            var call := |After(env, start, total).calls|;
            var longer := total + [genuine] + [ConsumeState(call, at, at)] + [SendRequest(call)];
            && IsRun(env, start, longer)
            && var history := After(env, start, longer).history;
            && history != [] && history[|history| - 1].Request? && history[|history| - 1].call == call
            && var form := history[|history| - 1].form;
            && Carries(form, "code", Some(genuine.code))
            && "redirect_uri" in form && IsChosen(form["redirect_uri"], begin.redirectUri, begin.config.redirectUri)
            && Carries(form, "code_verifier",
                       if begin.config.usePkce then Some(GenerateCodeVerifier(begin.random.1)) else None)
  {
    var waited := steps + [begin] + waiting;
    var saved := waited + [save];
    var total := saved + others;
    var pending := AuthorizationIsStored(env, start, steps, begin, waiting, save);
    HistoryGrows(env, start, saved, others);
    var e := |After(env, start, waited).history|;
    assert IsUntouched(After(env, start, total).history, e, pending);
    GenuineCallbackStillSucceeds(env, start, total, e, pending, genuine, at);
    VerifierIsNotEmpty(begin.random.1);
  }
}
