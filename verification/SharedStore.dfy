/** The store the flow's calls share is the store of stores.py: what holds of the one holds of the other. */
module SharedStore {
  import opened Wrappers
  import opened Stores
  import opened Flow
  import Client

  /** The calls on the store that a run makes. */
  ghost function StoreCalls(env: Env, start: real, steps: seq<Step>): seq<Stores.Event>
    requires IsRun(env, start, steps)
  {
    if steps == [] then []
    else
      var prefix := steps[..|steps| - 1];
      var before := After(env, start, prefix);
      match steps[|steps| - 1]
      case SaveState(call, readings, _) =>
        StoreCalls(env, start, prefix) + [Stores.Event.Save(before.calls[call].pending, readings)]
      case ConsumeState(call, at, _) =>
        StoreCalls(env, start, prefix) + [Stores.Event.Consume(KeyOf(before.calls[call]), at)]
      case _ => StoreCalls(env, start, prefix)
  }

  /** The store, after calls it allows, holds these entries. */
  ghost predicate Fits(env: Env, calls: seq<Stores.Event>, entries: Entries)
  {
    WellFormed(env.maxAge, calls) && EntriesAfter(env.maxAge, calls) == entries
  }

  lemma OneMoreCall(env: Env, calls: seq<Stores.Event>, entries: Entries, call: Stores.Event)
    requires Fits(env, calls, entries) && (call.Save? ==> call.readings.Keys == entries.Keys)
    ensures Fits(env, calls + [call],
                 if call.Save? then Saved(entries, env.maxAge, call.readings, call.pending) else entries - {call.key})
  {
    assert (calls + [call])[..|calls|] == calls;
  }

  /** The store calls of a run are calls the store allows, and they leave in it what the run leaves. */
  lemma {:induction false} StoreCallsFit(env: Env, start: real, steps: seq<Step>)
    requires IsRun(env, start, steps)
    ensures Fits(env, StoreCalls(env, start, steps), After(env, start, steps).entries)
  {
    if steps != [] {
      var prefix := steps[..|steps| - 1];
      var before, calls := After(env, start, prefix), StoreCalls(env, start, prefix);
      StoreCallsFit(env, start, prefix);
      match steps[|steps| - 1]
      case SaveState(call, readings, _) =>
        OneMoreCall(env, calls, before.entries, Stores.Event.Save(before.calls[call].pending, readings));
      case ConsumeState(call, at, _) =>
        OneMoreCall(env, calls, before.entries, Stores.Event.Consume(KeyOf(before.calls[call]), at));
      case _ =>
    }
  }

  lemma OneMoreInOrder(calls: seq<Stores.Event>, call: Stores.Event, start: real, now: real)
    requires InOrder(calls, start) && start <= now && ReadBetween(call, start, now)
    ensures InOrder(calls + [call], now)
  {
    assert (calls + [call])[..|calls|] == calls;
    assert LastFrom(calls + [call], start, now);
  }

  /** When the clock was not set back, they read it in order. */
  lemma {:induction false} StoreCallsInOrder(env: Env, start: real, steps: seq<Step>)
    requires IsRun(env, start, steps) && ClockAdvances(env, start, steps)
    ensures InOrder(StoreCalls(env, start, steps), After(env, start, steps).now)
  {
    if steps != [] {
      var prefix := steps[..|steps| - 1];
      var before, calls := After(env, start, prefix), StoreCalls(env, start, prefix);
      StoreCallsInOrder(env, start, prefix);
      match steps[|steps| - 1]
      case SaveState(call, readings, until) =>
        OneMoreInOrder(calls, Stores.Event.Save(before.calls[call].pending, readings), before.now, until);
      case ConsumeState(call, at, until) =>
        OneMoreInOrder(calls, Stores.Event.Consume(KeyOf(before.calls[call]), at), before.now, until);
      case Tick(until) => InOrderLater(calls, before.now, until);
      case _ =>
    }
  }

  /**
   * In every run, whatever the clock does, a consume finds what it would find in a store that
   * never prunes, unless the entry was pruned and has not expired by the consume's own reading.
   */
  lemma ExchangesSeeReferenceExactly(env: Env, start: real, steps: seq<Step>, call: nat, at: real, until: real)
    requires IsRun(env, start, steps) && Enabled(After(env, start, steps), ConsumeState(call, at, until))
    ensures var world, calls := After(env, start, steps), StoreCalls(env, start, steps);
            var key := KeyOf(world.calls[call]);
            var found := Do(env, world, ConsumeState(call, at, until)).calls[call].redeemed;
            && WellFormed(env.maxAge, calls)
            && var dropped := DroppedAt(env.maxAge, calls, key);
            && (dropped.Some? ==> key in ReferenceAfter(calls))
            && (found == Redeemed(ReferenceAfter(calls), env.maxAge, key, at)
                <==> (dropped.Some? ==> IsExpired(ReferenceAfter(calls)[key], env.maxAge, at)))
            && (dropped.Some? && dropped.value <= at ==> found == Redeemed(ReferenceAfter(calls), env.maxAge, key, at))
  {
    StoreCallsFit(env, start, steps);
    PruningShowsExactly(env.maxAge, StoreCalls(env, start, steps), KeyOf(After(env, start, steps).calls[call]), at);
  }

  /** When the clock was not set back, every consume finds what it would find in a store that never prunes. */
  lemma ExchangesSeeReference(env: Env, start: real, steps: seq<Step>, call: nat, at: real, until: real)
    requires IsRun(env, start, steps) && Enabled(After(env, start, steps), ConsumeState(call, at, until))
    requires ClockAdvances(env, start, steps) && IsOnTime(After(env, start, steps), ConsumeState(call, at, until))
    ensures var world := After(env, start, steps);
            var reference := ReferenceAfter(StoreCalls(env, start, steps));
            var after := Do(env, world, ConsumeState(call, at, until)).calls[call];
            && FoundYoung(after.redeemed, reference, env.maxAge, KeyOf(world.calls[call]), at)
            && after.point == if after.redeemed.Some? then Sending else Finished(Err(Client.InvalidState))
  {
    var world := After(env, start, steps);
    StoreCallsFit(env, start, steps);
    StoreCallsInOrder(env, start, steps);
    InOrderLater(StoreCalls(env, start, steps), world.now, at);
    PruningIsInvisible(env.maxAge, StoreCalls(env, start, steps), KeyOf(world.calls[call]), at);
  }

  /** Right after a save the shared store holds one entry more at most than there are keys saved in the last window. */
  lemma SharedStoreIsBounded(
    env: Env, start: real, steps: seq<Step>, call: nat, readings: map<string, real>, until: real)
    requires IsRun(env, start, steps) && Enabled(After(env, start, steps), SaveState(call, readings, until))
    requires IsOnTime(After(env, start, steps), SaveState(call, readings, until))
    ensures var world := After(env, start, steps);
            |Do(env, world, SaveState(call, readings, until)).entries|
            <= 1 + |RecentKeys(StoreCalls(env, start, steps), env.maxAge, world.now)|
  {
    var world, calls := After(env, start, steps), StoreCalls(env, start, steps);
    var save := Stores.Event.Save(world.calls[call].pending, readings);
    StoreCallsFit(env, start, steps);
    OneMoreCall(env, calls, world.entries, save);
    assert (calls + [save])[..|calls|] == calls;
    SizeAfterSave(env.maxAge, calls + [save], world.now, until);
  }
}
