/** How often a one-time schedule fires, over every history of the schedule
    table. */
module OnceOnly {
  import opened Lex
  import opened Schedules

  /** What can happen to the schedule table, each step with its store writes
      succeeding; a step the engine refuses changes nothing. `Fire` is the job of
      a live cron entry, run to the end of its completion mark; `running` says
      whether a run is in progress. */
  datatype Event =
    | Save(original: string, raw: Schedule)
    | Delete(name: string)
    | Toggle(name: string)
    | Fire(name: string, running: bool, now: int)
    | Manual(name: string, running: bool, now: int)
    | Reload

  /** The validation and the configuration of an installation. */
  datatype Setup = Setup(checks: Checks, configured: seq<Schedule>) {
    ghost predicate Ok() {
      checks.Reliable() && forall i :: 0 <= i < |configured| ==> checks.accepts(configured[i])
    }

    /** The engine makes this edit. */
    predicate Takes(table: ScheduleMap, original: string, raw: Schedule) {
      checks.accepts(raw) && Fits(table, original, raw.name)
    }
  }

  /** The event starts a scheduler run. */
  predicate Starts(table: ScheduleMap, e: Event) {
    && e.Fire? && e.name in table && Active(table[e.name])
    && !(e.running && !table[e.name].allowConcurrent)
  }

  /** The table after the event. A reload is a restart of the engine; without
      schedules it starts over from the configuration. */
  function NextTable(setup: Setup, table: ScheduleMap, e: Event): ScheduleMap {
    match e
    case Save(original, raw) =>
      if setup.Takes(table, original, raw) then Replaced(table, original, Incoming(table, original, raw)) else table
    case Delete(name) => table - {name}
    case Toggle(name) => if name in table then table[name := Toggled(table[name])] else table
    case Fire(name, _, now) =>
      if Starts(table, e) && Unfinished(table[name]) then table[name := Marked(table[name], Some(now))] else table
    case Manual(_, _, _) => table
    case Reload => if table == map[] then TableOf(setup.configured) else table
  }

  /** The table, the current name of the schedule being followed (none once it
      is deleted), the scheduler runs started for it while it was one-time, and
      the edits that made it due again. */
  datatype World = World(table: ScheduleMap, tracked: Option<string>, started: nat, rearmed: nat)

  /** The event edits the followed schedule. */
  predicate EditsTracked(setup: Setup, w: World, e: Event) {
    e.Save? && w.tracked == Some(e.original) && e.original in w.table && setup.Takes(w.table, e.original, e.raw)
  }

  function Next(setup: Setup, w: World, e: Event): World {
    World(NextTable(setup, w.table, e),
          if EditsTracked(setup, w, e) then Some(e.raw.name)
          else if e.Delete? && w.tracked == Some(e.name) then None
          else w.tracked,
          if Starts(w.table, e) && w.tracked == Some(e.name) && w.table[e.name].kind == Once then w.started + 1
          else w.started,
          if EditsTracked(setup, w, e) && Rearms(e.raw, w.table[e.original]) then w.rearmed + 1 else w.rearmed)
  }

  function Final(setup: Setup, w: World, events: seq<Event>): World
    decreases |events|
  {
    if events == [] then w else Final(setup, Next(setup, w, events[0]), events[1..])
  }

  /** The followed schedule has started at most one run more than the edits that
      made it due again, and when it has, it is not due. */
  predicate Marking(w: World) {
    && "" !in w.table
    && w.started <= 1 + w.rearmed
    && (w.tracked.Some? ==>
          && w.tracked.value in w.table
          && (w.started == 1 + w.rearmed ==> !Unfinished(w.table[w.tracked.value])))
  }

  lemma StepMarks(setup: Setup, w: World, e: Event)
    requires setup.Ok() && Marking(w)
    ensures Marking(Next(setup, w, e))
  {
    match e
    case Save(original, raw) =>
      if setup.Takes(w.table, original, raw) {
        assert Normalize(raw).name != "";
        assert Incoming(w.table, original, raw).name == raw.name;
      }
    case Delete(name) =>
    case Toggle(name) =>
    case Fire(name, running, now) =>
    case Manual(name, running, now) =>
    case Reload => NamedTable(setup, setup.configured);
  }

  lemma {:induction false} NamedTable(setup: Setup, list: seq<Schedule>)
    requires setup.checks.Reliable() && forall i :: 0 <= i < |list| ==> setup.checks.accepts(list[i])
    ensures "" !in TableOf(list)
  {
    if list != [] {
      NamedTable(setup, list[..|list| - 1]);
      assert Normalize(list[|list| - 1]).name != "";
    }
  }

  lemma {:induction false} RunsMark(setup: Setup, w: World, events: seq<Event>)
    requires setup.Ok() && Marking(w)
    ensures Marking(Final(setup, w, events))
    decreases |events|
  {
    if events != [] {
      StepMarks(setup, w, events[0]);
      RunsMark(setup, Next(setup, w, events[0]), events[1..]);
    }
  }

  /** Over every history, at most one run and one more for each edit that made
      the schedule due again; after the last of them it is not due, however it
      is edited, renamed, paused or reloaded. */
  lemma FiresAtMostOnce(setup: Setup, table: ScheduleMap, name: string, events: seq<Event>)
    requires setup.Ok() && "" !in table && name in table
    ensures var end := Final(setup, World(table, Some(name), 0, 0), events);
      && end.started <= 1 + end.rearmed
      && (end.started == 1 + end.rearmed && end.tracked.Some? ==>
            end.tracked.value in end.table && !Unfinished(end.table[end.tracked.value]))
  {
    RunsMark(setup, World(table, Some(name), 0, 0), events);
  }

  /** Every edit of the followed schedule keeps it one-time for the same time and
      zone. */
  predicate KeepsOccasion(setup: Setup, w: World, events: seq<Event>, runAt: string, timezone: string)
    decreases |events|
  {
    events != [] ==>
      && (EditsTracked(setup, w, events[0]) ==>
            events[0].raw.kind == Once && events[0].raw.runAt == runAt && events[0].raw.timezone == timezone)
      && KeepsOccasion(setup, Next(setup, w, events[0]), events[1..], runAt, timezone)
  }

  /** A one-time schedule whose time and zone are kept fires at most once, across
      every edit, rename, pause, manual run and restart. */
  lemma KeptOccasionFiresOnce(setup: Setup, table: ScheduleMap, name: string, events: seq<Event>)
    requires setup.Ok() && "" !in table && name in table && table[name].kind == Once && table[name].timezone != ""
    requires KeepsOccasion(setup, World(table, Some(name), 0, 0), events, table[name].runAt, table[name].timezone)
    ensures Final(setup, World(table, Some(name), 0, 0), events).started <= 1
  {
    NeverRearmed(setup, World(table, Some(name), 0, 0), events, table[name].runAt, table[name].timezone);
    FiresAtMostOnce(setup, table, name, events);
  }

  lemma {:induction false} NeverRearmed(setup: Setup, w: World, events: seq<Event>, runAt: string, timezone: string)
    requires setup.Ok() && Marking(w) && timezone != ""
    requires w.tracked.Some? ==> var s := w.table[w.tracked.value];
               s.kind == Once && s.runAt == runAt && s.timezone == timezone
    requires KeepsOccasion(setup, w, events, runAt, timezone)
    ensures Final(setup, w, events).rearmed == w.rearmed
    decreases |events|
  {
    if events != [] {
      StepMarks(setup, w, events[0]);
      NeverRearmed(setup, Next(setup, w, events[0]), events[1..], runAt, timezone);
    }
  }

  // ---------------------------------------------------------------- sharpness

  /** One-time definitions of the same schedule for two different times. */
  predicate TwoOccasions(setup: Setup, a: Schedule, b: Schedule) {
    && a.kind == Once && b.kind == Once && a.name == b.name && a.runAt != b.runAt
    && a.completedAt.None? && b.completedAt.None? && !a.paused && !b.paused
    && setup.checks.accepts(a) && setup.checks.accepts(b)
  }

  /** Fire, and `n` times move the schedule to its other time and fire again. */
  function Again(a: Schedule, b: Schedule, n: nat): seq<Event>
    decreases n
  {
    if n == 0 then [Fire(a.name, false, 0)] else [Fire(a.name, false, 0), Save(a.name, b)] + Again(b, a, n - 1)
  }

  lemma FireThenMove(setup: Setup, w: World, a: Schedule, b: Schedule)
    requires setup.Ok() && TwoOccasions(setup, a, b)
    requires a.name in w.table && w.table[a.name] == Normalize(a) && w.tracked == Some(a.name)
    ensures var fired := Next(setup, w, Fire(a.name, false, 0));
      && fired.started == w.started + 1 && fired.rearmed == w.rearmed
      && var moved := Next(setup, fired, Save(a.name, b));
      && moved.started == w.started + 1 && moved.rearmed == w.rearmed + 1 && moved.tracked == Some(b.name)
      && b.name in moved.table && moved.table[b.name] == Normalize(b)
  {
    assert Normalize(a).name != "";
  }

  lemma {:induction false} FiresAgain(setup: Setup, w: World, a: Schedule, b: Schedule, n: nat)
    requires setup.Ok() && TwoOccasions(setup, a, b)
    requires a.name in w.table && w.table[a.name] == Normalize(a) && w.tracked == Some(a.name)
    ensures var end := Final(setup, w, Again(a, b, n));
      end.started == w.started + n + 1 && end.rearmed == w.rearmed + n
    decreases n
  {
    FireThenMove(setup, w, a, b);
    var fired := Next(setup, w, Fire(a.name, false, 0));
    if n == 0 {
      assert Final(setup, fired, [Fire(a.name, false, 0)][1..]) == fired;
    } else {
      var rest := Again(b, a, n - 1);
      var moved := Next(setup, fired, Save(a.name, b));
      var events := Again(a, b, n);
      assert events[1..] == [Save(a.name, b)] + rest && events[1..][1..] == rest;
      assert Final(setup, w, events) == Final(setup, fired, events[1..]) == Final(setup, moved, rest);
      FiresAgain(setup, moved, b, a, n - 1);
    }
  }

  /** Histories with at most `k` edits that make the schedule due again start at
      most `limit` scheduler runs of it, exactly when `k < limit`: once without
      such an edit, and twice with one. */
  lemma FiresOnceMoreThanRearmed(setup: Setup, table: ScheduleMap, a: Schedule, b: Schedule, k: nat, limit: nat)
    requires setup.Ok() && TwoOccasions(setup, a, b)
    requires "" !in table && a.name in table && table[a.name] == Normalize(a)
    ensures (forall events :: Final(setup, World(table, Some(a.name), 0, 0), events).rearmed <= k
                              ==> Final(setup, World(table, Some(a.name), 0, 0), events).started <= limit)
       <==> k < limit
  {
    var start := World(table, Some(a.name), 0, 0);
    forall events | k < limit && Final(setup, start, events).rearmed <= k
      ensures Final(setup, start, events).started <= limit
    {
      FiresAtMostOnce(setup, table, a.name, events);
    }
    FiresAgain(setup, start, a, b, k);
    assert Final(setup, start, Again(a, b, k)).started == k + 1;
  }
}
