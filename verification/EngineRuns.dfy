/** Whole runs of the engine's schedule operations. */
module EngineRuns {
  import opened Lex
  import opened Schedules
  import opened Engine
  import opened OnceOnly

  /** An engine of this installation whose memory and disk agree. */
  ghost predicate InStep(e: Engine, setup: Setup)
    reads e, e.store
  {
    setup.Ok() && e.checks == setup.checks && e.Valid() && e.Synced()
  }

  method PlaySave(e: Engine, setup: Setup, original: string, raw: Schedule)
    requires InStep(e, setup)
    modifies e, e.store
    ensures InStep(e, setup)
    ensures e.schedules == NextTable(setup, old(e.schedules), Save(original, raw))
  {
    OriginalOk(e.checks, e.schedules, "");
    var _ := e.SaveSchedule(original, raw, Outcomes(true, true, true, true, true, true));
  }

  method PlayToggle(e: Engine, setup: Setup, name: string)
    requires InStep(e, setup)
    modifies e, e.store
    ensures InStep(e, setup)
    ensures e.schedules == NextTable(setup, old(e.schedules), Toggle(name))
  {
    var _, _ := e.TogglePause(name, true, true, true);
  }

  method PlayFire(e: Engine, setup: Setup, name: string, running: bool, now: int) returns (started: bool)
    requires InStep(e, setup)
    modifies e, e.store
    ensures InStep(e, setup)
    ensures started <==>
              && name in old(e.schedules) && Active(old(e.schedules)[name])
              && !(running && !old(e.schedules)[name].allowConcurrent)
    ensures e.schedules == if started && Unfinished(old(e.schedules)[name])
                           then old(e.schedules)[name := Marked(old(e.schedules)[name], Some(now))]
                           else old(e.schedules)
  {
    started := false;
    if name in e.entryIDs {
      assert name in LiveNames(e.schedules);
      var attempt := e.Trigger(name, true, Some(running), true, now, true);
      started := attempt.StartedRun?;
    } else {
      assert name !in LiveNames(e.schedules);
    }
  }

  /** One event, with every store and cron call succeeding. A reload gives a
      new engine over the same store. */
  method Play(e: Engine, setup: Setup, event: Event) returns (after: Engine, started: bool)
    requires InStep(e, setup)
    modifies e, e.store
    ensures InStep(after, setup) && after.store == e.store && (after == e || fresh(after))
    ensures after.schedules == NextTable(setup, old(e.schedules), event)
    ensures started <==> Starts(old(e.schedules), event)
  {
    after, started := e, false;
    match event {
      case Save(original, raw) =>
        PlaySave(e, setup, original, raw);
      case Delete(name) =>
        if name !in e.schedules { DropAbsent(e.schedules, name); }
        var _ := e.DeleteSchedule(name, true);
      case Toggle(name) =>
        PlayToggle(e, setup, name);
      case Fire(name, running, now) =>
        started := PlayFire(e, setup, name, running, now);
      case Manual(name, running, now) =>
        var _ := e.TriggerManual(name, Some(running), true, now);
      case Reload =>
        after := Restart(e, setup.configured);
    }
  }

  /** A whole history: at its end, and so at any point of it, memory and disk
      agree and the live entries are those of the table. `fires` counts the
      scheduler runs the engine started for the followed schedule while it was
      one-time. */
  method PlayAll(e: Engine, setup: Setup, w: World, events: seq<Event>) returns (after: Engine, fires: nat)
    requires InStep(e, setup) && w.table == e.schedules
    modifies e, e.store
    ensures InStep(after, setup) && after.store == e.store && (after == e || fresh(after))
    ensures after.schedules == Final(setup, w, events).table
    ensures after.entryIDs.Keys == LiveNames(after.schedules)
    ensures fires == Final(setup, w, events).started - w.started
    decreases |events|
  {
    if events == [] {
      return e, 0;
    }
    var event := events[0];
    var next, started := Play(e, setup, event);
    after, fires := PlayAll(next, setup, Next(setup, w, event), events[1..]);
    if started && w.tracked == Some(event.name) && w.table[event.name].kind == Once {
      fires := fires + 1;
    }
  }

  /** The engine fires a one-time schedule at most once, and once more for each
      edit that makes it due again; after that the cron has no entry for it. */
  method FollowOnce(e: Engine, setup: Setup, name: string, events: seq<Event>) returns (after: Engine, fires: nat)
    requires InStep(e, setup) && name in e.schedules
    modifies e, e.store
    ensures InStep(after, setup)
    ensures var end := Final(setup, World(old(e.schedules), Some(name), 0, 0), events);
      && after.schedules == end.table
      && fires <= 1 + end.rearmed
      && (fires == 1 + end.rearmed && end.tracked.Some? ==>
            && end.tracked.value in end.table
            && (end.table[end.tracked.value].kind == Once ==> end.tracked.value !in after.entryIDs))
  {
    OriginalOk(e.checks, e.schedules, name);
    FiresAtMostOnce(setup, e.schedules, name, events);
    after, fires := PlayAll(e, setup, World(e.schedules, Some(name), 0, 0), events);
  }
}
