/**
 * The in-memory state store (stores.py). `save` and `consume` hold no await, so each is
 * one atomic step; `_prune` reads the clock once for every entry it tests.
 */
module Stores {
  import opened Wrappers

  type Metadata = map<string, string>

  datatype PendingState = PendingState(
    state: string,
    redirectUri: string,
    codeVerifier: Option<string>,
    createdAt: real,
    metadata: Metadata)

  type Entries = map<string, PendingState>

  /** `_is_expired`, at the moment the clock reads `now`. */
  predicate IsExpired(pending: PendingState, maxAge: real, now: real)
  {
    now - pending.createdAt >= maxAge
  }

  // -----  What the store does, as a function of the clock readings it takes  -----

  /** `_prune`, where `readings` gives the clock reading each entry was tested at. */
  function Pruned(entries: Entries, maxAge: real, readings: map<string, real>): Entries
    requires entries.Keys <= readings.Keys
  {
    map key | key in entries && !IsExpired(entries[key], maxAge, readings[key]) :: entries[key]
  }

  function Saved(entries: Entries, maxAge: real, readings: map<string, real>, pending: PendingState): Entries
    requires entries.Keys <= readings.Keys
  {
    Pruned(entries, maxAge, readings)[pending.state := pending]
  }

  /** What `consume` hands back for a key when the clock reads `now`; the entry goes in any case. */
  function Redeemed(entries: Entries, maxAge: real, key: string, now: real): Option<PendingState>
  {
    if key in entries && !IsExpired(entries[key], maxAge, now) then Some(entries[key]) else None
  }

  /** One call on the store, with the clock readings it took. */
  datatype Event =
    | Save(pending: PendingState, readings: map<string, real>)
    | Consume(key: string, now: real)

  /** The entries left by the calls so far; a call's readings cover the entries it tests. */
  ghost predicate WellFormed(maxAge: real, history: seq<Event>)
    decreases |history|, 0
  {
    history == [] ||
    var before := history[..|history| - 1];
    var last := history[|history| - 1];
    WellFormed(maxAge, before) && (last.Save? ==> last.readings.Keys == EntriesAfter(maxAge, before).Keys)
  }

  ghost function EntriesAfter(maxAge: real, history: seq<Event>): Entries
    requires WellFormed(maxAge, history)
    decreases |history|, 1
  {
    if history == [] then map[]
    else
      var entries := EntriesAfter(maxAge, history[..|history| - 1]);
      match history[|history| - 1]
      case Save(pending, readings) => Saved(entries, maxAge, readings, pending)
      case Consume(key, _) => entries - {key}
  }

  // -----  The reference store: never prunes, tests age only when consuming  -----

  ghost function ReferenceAfter(history: seq<Event>): Entries
  {
    if history == [] then map[]
    else
      var entries := ReferenceAfter(history[..|history| - 1]);
      match history[|history| - 1]
      case Save(pending, _) => entries[pending.state := pending]
      case Consume(key, _) => entries - {key}
  }

  /** Every reading of a call lies between these two moments. */
  predicate ReadBetween(event: Event, low: real, high: real)
  {
    match event
    case Save(_, readings) => forall key :: key in readings ==> low <= readings[key] <= high
    case Consume(_, now) => low <= now <= high
  }

  /** The clock never ran backwards: successive calls read it in successive intervals up to `now`. */
  ghost predicate InOrder(history: seq<Event>, now: real)
    decreases |history|, 0
  {
    history == [] || exists start :: LastFrom(history, start, now)
  }

  ghost predicate LastFrom(history: seq<Event>, start: real, now: real)
    requires history != []
    decreases |history| - 1, 1
  {
    && start <= now
    && InOrder(history[..|history| - 1], start)
    && ReadBetween(history[|history| - 1], start, now)
  }

  /**
   * The refinement invariant. The store holds a part of what the reference holds, and
   * what it no longer holds has expired for good.
   */
  ghost predicate Refines(entries: Entries, reference: Entries, maxAge: real, now: real)
  {
    && (forall key :: key in entries ==> key in reference && reference[key] == entries[key])
    && (forall key :: key in reference && key !in entries ==> IsExpired(reference[key], maxAge, now))
  }

  lemma {:induction false} RefinesAlways(maxAge: real, history: seq<Event>, now: real)
    requires WellFormed(maxAge, history) && InOrder(history, now)
    ensures Refines(EntriesAfter(maxAge, history), ReferenceAfter(history), maxAge, now)
  {
    if history != [] {
      var start :| LastFrom(history, start, now);
      RefinesAlways(maxAge, history[..|history| - 1], start);
    }
  }

  /**
   * Pruning is invisible: after any calls, in whatever order, a consume finds in the store
   * just what it would find in a store that never pruned.
   */
  lemma PruningIsInvisible(maxAge: real, history: seq<Event>, key: string, now: real)
    requires WellFormed(maxAge, history) && InOrder(history, now)
    ensures Redeemed(EntriesAfter(maxAge, history), maxAge, key, now)
            == Redeemed(ReferenceAfter(history), maxAge, key, now)
  {
    RefinesAlways(maxAge, history, now);
  }

  // -----  When pruning shows, whatever the clock does  -----

  /**
   * The clock reading at which the key's entry was pruned, if it was pruned and has not been
   * saved again or consumed since. Nothing is asked of the clock.
   */
  ghost function DroppedAt(maxAge: real, history: seq<Event>, key: string): Option<real>
    requires WellFormed(maxAge, history)
  {
    if history == [] then None
    else
      var before := history[..|history| - 1];
      match history[|history| - 1]
      case Save(pending, readings) =>
        if pending.state == key then None
        else if
          && key in EntriesAfter(maxAge, before)
          && IsExpired(EntriesAfter(maxAge, before)[key], maxAge, readings[key])
        then Some(readings[key])
        else DroppedAt(maxAge, before, key)
      case Consume(taken, _) => if taken == key then None else DroppedAt(maxAge, before, key)
  }

  /** What was dropped is exactly what the reference holds and the store does not; it had expired by then. */
  lemma {:induction false} DroppedExactly(maxAge: real, history: seq<Event>, key: string)
    requires WellFormed(maxAge, history)
    ensures var entries, reference := EntriesAfter(maxAge, history), ReferenceAfter(history);
            && (key in entries ==> key in reference && reference[key] == entries[key])
            && (DroppedAt(maxAge, history, key).Some? <==> key in reference && key !in entries)
            && (DroppedAt(maxAge, history, key).Some? ==>
                  IsExpired(reference[key], maxAge, DroppedAt(maxAge, history, key).value))
  {
    if history != [] {
      DroppedExactly(maxAge, history[..|history| - 1], key);
    }
  }

  /** A consume at `now` finds in the store what it would find in the store that never prunes. */
  ghost predicate Agrees(maxAge: real, history: seq<Event>, key: string, now: real)
    requires WellFormed(maxAge, history)
  {
    Redeemed(EntriesAfter(maxAge, history), maxAge, key, now) == Redeemed(ReferenceAfter(history), maxAge, key, now)
  }

  /**
   * Exactly when pruning shows, for every history, in whatever order the clock was read: the
   * entry was dropped and has not expired at `now`. So a consume that reads the clock no earlier
   * than the prune that dropped the entry always agrees.
   */
  lemma PruningShowsExactly(maxAge: real, history: seq<Event>, key: string, now: real)
    requires WellFormed(maxAge, history)
    ensures var dropped := DroppedAt(maxAge, history, key);
            && (dropped.Some? ==> key in ReferenceAfter(history))
            && (Agrees(maxAge, history, key, now)
                <==> (dropped.Some? ==> IsExpired(ReferenceAfter(history)[key], maxAge, now)))
            && (dropped.Some? && dropped.value <= now ==> Agrees(maxAge, history, key, now))
  {
    DroppedExactly(maxAge, history, key);
  }

  /** Two more saves, the second of which tests the first state along with the others. */
  ghost function SaveThenPrune(history: seq<Event>, first: Event, second: Event): seq<Event>
  {
    history + [first] + [second]
  }

  /** The second save tests the state of the first when the clock reads `pruned`. */
  ghost predicate PrunesAt(maxAge: real, history: seq<Event>, first: Event, second: Event, pruned: real)
  {
    && first.Save? && second.Save? && first.pending.state != second.pending.state
    && WellFormed(maxAge, SaveThenPrune(history, first, second))
    && first.pending.state in second.readings && second.readings[first.pending.state] == pruned
  }

  lemma DroppedByPrune(maxAge: real, history: seq<Event>, first: Event, second: Event, pruned: real)
    requires WellFormed(maxAge, history) && PrunesAt(maxAge, history, first, second, pruned)
    ensures var longer := SaveThenPrune(history, first, second);
            var key := first.pending.state;
            && (DroppedAt(maxAge, longer, key)
                == if IsExpired(first.pending, maxAge, pruned) then Some(pruned) else None)
            && key in ReferenceAfter(longer) && ReferenceAfter(longer)[key] == first.pending
  {
    var longer := SaveThenPrune(history, first, second);
    assert longer[..|longer| - 1] == history + [first];
    assert (history + [first])[..|history|] == history;
  }

  lemma OneMoreSave(maxAge: real, history: seq<Event>, save: Event)
    requires WellFormed(maxAge, history) && save.Save? && save.readings.Keys == EntriesAfter(maxAge, history).Keys
    ensures WellFormed(maxAge, history + [save])
    ensures save.pending.state in EntriesAfter(maxAge, history + [save])
  {
    assert (history + [save])[..|history|] == history;
  }

  /** The save that would follow if the clock read this for each entry it tests. */
  ghost function SaveReading(maxAge: real, history: seq<Event>, pending: PendingState, reading: real): Event
    requires WellFormed(maxAge, history)
  {
    Event.Save(pending, map key | key in EntriesAfter(maxAge, history) :: reading)
  }

  /** After any history, two saves that prune at this reading can follow, of whatever state comes first. */
  lemma PruneCanFollow(maxAge: real, history: seq<Event>, pending: PendingState, pruned: real)
    returns (first: Event, second: Event)
    requires WellFormed(maxAge, history)
    ensures first.Save? && first.pending == pending && PrunesAt(maxAge, history, first, second, pruned)
  {
    first := SaveReading(maxAge, history, pending, pruned);
    OneMoreSave(maxAge, history, first);
    var other := pending.(state := pending.state + "x");
    assert |other.state| == |pending.state| + 1;
    second := SaveReading(maxAge, history + [first], other, pruned);
    OneMoreSave(maxAge, history + [first], second);
  }

  /**
   * The code reads the wall clock, which may be set back, and then pruning does show. After any
   * history, a consume at `now` agrees for every state a prune at `pruned` can have tested if and
   * only if it does not read the clock earlier than that prune did.
   */
  lemma PruningShowsExactlyWhenSetBack(maxAge: real, history: seq<Event>, pruned: real, now: real)
    requires WellFormed(maxAge, history)
    ensures pruned <= now
            <==> forall first, second :: PrunesAt(maxAge, history, first, second, pruned) ==>
                   Agrees(maxAge, SaveThenPrune(history, first, second), first.pending.state, now)
  {
    forall first, second | PrunesAt(maxAge, history, first, second, pruned)
      ensures Agrees(maxAge, SaveThenPrune(history, first, second), first.pending.state, now)
              <==> (IsExpired(first.pending, maxAge, pruned) ==> IsExpired(first.pending, maxAge, now))
    {
      DroppedByPrune(maxAge, history, first, second, pruned);
      PruningShowsExactly(maxAge, SaveThenPrune(history, first, second), first.pending.state, now);
    }
    if now < pruned {
      var pending := PendingState("", "", None, pruned - maxAge, map[]);
      var first, second := PruneCanFollow(maxAge, history, pending, pruned);
      assert !Agrees(maxAge, SaveThenPrune(history, first, second), first.pending.state, now);
    }
  }

  // -----  How much the store can hold  -----

  /** The keys ever saved with a creation time inside the last window before `since`. */
  ghost function RecentKeys(history: seq<Event>, maxAge: real, since: real): set<string>
  {
    set i | 0 <= i < |history| && history[i].Save? && since - history[i].pending.createdAt < maxAge
      :: history[i].pending.state
  }

  /** Every entry was saved, under its own key, by some call. */
  lemma {:induction false} EntriesWereSaved(maxAge: real, history: seq<Event>, key: string) returns (i: nat)
    requires WellFormed(maxAge, history) && key in EntriesAfter(maxAge, history)
    ensures i < |history| && history[i].Save? && history[i].pending == EntriesAfter(maxAge, history)[key]
    ensures history[i].pending.state == key
  {
    var before, last := history[..|history| - 1], history[|history| - 1];
    if last.Save? && last.pending.state == key {
      i := |history| - 1;
    } else {
      i := EntriesWereSaved(maxAge, before, key);
    }
  }

  lemma {:induction false} SubsetSize(a: set<string>, b: set<string>)
    requires a <= b
    ensures |a| <= |b|
  {
    if a != {} {
      var x :| x in a;
      SubsetSize(a - {x}, b - {x});
    }
  }

  /**
   * Whatever was saved before, right after a save the store holds no more than the new
   * entry and one entry for each key saved within the last window.
   */
  lemma SizeAfterSave(maxAge: real, history: seq<Event>, low: real, high: real)
    requires WellFormed(maxAge, history) && history != []
    requires history[|history| - 1].Save? && ReadBetween(history[|history| - 1], low, high)
    ensures |EntriesAfter(maxAge, history)| <= 1 + |RecentKeys(history[..|history| - 1], maxAge, low)|
  {
    var before, last := history[..|history| - 1], history[|history| - 1];
    var entries := EntriesAfter(maxAge, history);
    var recent := RecentKeys(before, maxAge, low);
    forall key | key in entries.Keys ensures key in recent + {last.pending.state} {
      if key != last.pending.state {
        var i := EntriesWereSaved(maxAge, before, key);
        assert before[i].pending.state in recent;
      }
    }
    SubsetSize(entries.Keys, recent + {last.pending.state});
    SubsetSize(recent + {last.pending.state} - {last.pending.state}, recent);
    assert |entries| == |entries.Keys|;
  }

  // -----  The store itself  -----

  /** The entries younger than the maximum age at their own reading. */
  ghost function KeptYoung(entries: Entries, maxAge: real, readings: map<string, real>): Entries
    requires entries.Keys <= readings.Keys
  {
    map key | key in entries && readings[key] - entries[key].createdAt < maxAge :: entries[key]
  }

  /** Pruning keeps exactly the entries younger than the maximum age. */
  lemma PrunedIsYoung(entries: Entries, maxAge: real, readings: map<string, real>)
    requires entries.Keys <= readings.Keys
    ensures Pruned(entries, maxAge, readings) == KeptYoung(entries, maxAge, readings)
  {
  }

  /** What was found is the entry of the key, if there is one younger than the maximum age at `now`. */
  ghost predicate FoundYoung(
    found: Option<PendingState>, entries: Entries, maxAge: real, key: string, now: real)
  {
    && (found.Some? <==> key in entries && now - entries[key].createdAt < maxAge)
    && (found.Some? ==> found.value == entries[key])
  }

  /** `time.time()`: read in sequence, it never runs backwards. */
  class Clock {
    var now: real

    constructor (start: real)
      ensures now == start
    {
      now := start;
    }

    method Time() returns (t: real)
      modifies this
      ensures old(now) <= now && t == now
    {
      var elapsed: real := *;
      if elapsed > 0.0 {
        now := now + elapsed;
      }
      t := now;
    }
  }

  lemma InOrderLater(history: seq<Event>, now: real, later: real)
    requires InOrder(history, now) && now <= later
    ensures InOrder(history, later)
  {
    if history != [] {
      var start :| LastFrom(history, start, now);
      assert LastFrom(history, start, later);
    }
  }

  /** One more call keeps a history well formed and in order. */
  lemma Extend(maxAge: real, history: seq<Event>, event: Event, start: real, now: real)
    requires WellFormed(maxAge, history) && InOrder(history, start)
    requires start <= now && ReadBetween(event, start, now)
    requires event.Save? ==> event.readings.Keys == EntriesAfter(maxAge, history).Keys
    ensures (history + [event])[..|history|] == history
    ensures WellFormed(maxAge, history + [event]) && InOrder(history + [event], now)
  {
    assert (history + [event])[..|history|] == history;
    assert LastFrom(history + [event], start, now);
  }

  class MemoryStateStore {
    var states: Entries
    const maxAge: real
    const clock: Clock
    ghost var history: seq<Event>

    ghost predicate Valid()
      reads this, clock
    {
      && WellFormed(maxAge, history)
      && states == EntriesAfter(maxAge, history)
      && InOrder(history, clock.now)
    }

    constructor (maxAge: real, clock: Clock)
      ensures Valid() && history == []
      ensures this.maxAge == maxAge && this.clock == clock
    {
      this.maxAge := maxAge;
      this.clock := clock;
      states := map[];
      history := [];
    }

    /** Stores the state after dropping what has expired: the reference store plus pruning. */
    method Save(pending: PendingState)
      requires Valid()
      modifies this, clock
      ensures Valid() && old(clock.now) <= clock.now
      ensures exists readings: map<string, real> ::
                && readings.Keys == old(states).Keys
                && ReadBetween(Event.Save(pending, readings), old(clock.now), clock.now)
                && history == old(history) + [Event.Save(pending, readings)]
                && states == KeptYoung(old(states), maxAge, readings)[pending.state := pending]
      ensures ReferenceAfter(history) == ReferenceAfter(old(history))[pending.state := pending]
      ensures |states| <= 1 + |RecentKeys(old(history), maxAge, old(clock.now))|
    {
      ghost var start := clock.now;
      ghost var readings := Prune();
      PrunedIsYoung(old(states), maxAge, readings);
      states := states[pending.state := pending];
      ghost var event := Event.Save(pending, readings);
      Extend(maxAge, history, event, start, clock.now);
      history := history + [event];
      SizeAfterSave(maxAge, history, start, clock.now);
      assert history[..|history| - 1] == old(history);
    }

    /**
     * Takes the state out, and hands it back unless it has expired: exactly what a store
     * that never pruned would hand back.
     */
    method Consume(key: string) returns (found: Option<PendingState>)
      requires Valid()
      modifies this, clock
      ensures Valid() && old(clock.now) <= clock.now
      ensures states == old(states) - {key}
      ensures exists now ::
                && old(clock.now) <= now <= clock.now
                && history == old(history) + [Event.Consume(key, now)]
                && FoundYoung(found, old(states), maxAge, key, now)
                && FoundYoung(found, ReferenceAfter(old(history)), maxAge, key, now)
    {
      ghost var start := clock.now;
      var entry := if key in states then Some(states[key]) else None;
      states := states - {key};
      ghost var now := clock.now;
      found := entry;
      if entry.Some? {
        var reading := clock.Time();
        now := reading;
        if IsExpired(entry.value, maxAge, reading) {
          var later := clock.Time();
          var age := later - entry.value.createdAt;
          found := None;
        }
      }
      ghost var event := Event.Consume(key, now);
      InOrderLater(history, start, now);
      PruningIsInvisible(maxAge, history, key, now);
      Extend(maxAge, history, event, start, clock.now);
      history := history + [event];
    }

    /** Two passes: find what has expired, one clock reading an entry, then delete it. */
    method Prune() returns (ghost readings: map<string, real>)
      modifies this`states, clock
      ensures readings.Keys == old(states).Keys && states == KeptYoung(old(states), maxAge, readings)
      ensures old(clock.now) <= clock.now
      ensures forall key :: key in readings ==> old(clock.now) <= readings[key] <= clock.now
    {
      readings := map[];
      var expiredKeys: set<string> := {};
      var unread := states.Keys;
      while unread != {}
        invariant unread <= states.Keys && readings.Keys == states.Keys - unread && states == old(states)
        invariant old(clock.now) <= clock.now
        invariant forall key :: key in readings ==> old(clock.now) <= readings[key] <= clock.now
        invariant expiredKeys
               == set key | key in readings && key in states && IsExpired(states[key], maxAge, readings[key])
        decreases unread
      {
        var key :| key in unread;
        unread := unread - {key};
        var now := clock.Time();
        readings := readings[key := now];
        if IsExpired(states[key], maxAge, now) {
          expiredKeys := expiredKeys + {key};
        }
      }
      ghost var doomed := expiredKeys;
      while expiredKeys != {}
        invariant expiredKeys <= doomed && states == old(states) - (doomed - expiredKeys)
        modifies this`states
        decreases expiredKeys
      {
        var key :| key in expiredKeys;
        expiredKeys := expiredKeys - {key};
        states := states - {key};
      }
    }
  }
}
