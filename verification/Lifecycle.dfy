/** Runs in progress: triggers, executions, counting and pruning, interleaved
    over one run log. */
module Lifecycle {
  import opened Lex
  import opened Runs
  import opened Retained
  import opened StoreSpec

  const PRUNE_EVERY := 300_000_000_000
  const PRUNE_EVERY_N := 100

  /** A `Trigger` call between its running check and its save. */
  datatype Caller = Caller(name: string, skip: bool)

  /** Calls of `Trigger` are numbered: `callers` are those past the check, and
      `inFlight` holds the run each started execution captured, under the number
      of its call. `orphans` are the running records an earlier process left
      behind; `used` are the run ids ever used; `uncounted` are runs finalised
      but not yet through `maybePruneRuns`; `decided` are prunes that are due;
      `stored` counts the saves, with the records found at startup, and `pruned`
      the records removed by pruning. */
  datatype State = State(
    records: RunMap, callers: map<nat, Caller>, inFlight: map<nat, Run>, orphans: set<string>, used: set<string>,
    uncounted: nat, sincePrune: nat, lastPrune: Option<int>, decided: nat,
    stored: nat, pruned: nat)

  datatype Event =
    | Check(caller: nat, name: string, allowConcurrent: bool)
    | Store(caller: nat, id: string, startedAt: int, detail: string)
    | Finish(caller: nat, succeeded: bool, detail: string)
    | Count(now: int)
    | Prune(kept: RunMap, now: int)
    | Clear

  function RunningIds(m: RunMap): set<string> {
    set id | id in m && m[id].status == Running
  }

  function RunningOf(m: RunMap, name: string): set<string> {
    set id | id in m && m[id].status == Running && m[id].scheduleName == name
  }

  function CallersOf(callers: map<nat, Caller>, name: string): set<nat> {
    set c | c in callers && callers[c].name == name
  }

  function PastCheck(callers: map<nat, Caller>, name: string): set<nat> {
    set c | c in callers && callers[c].name == name && !callers[c].skip
  }

  /** Steps that can happen. Run ids may repeat. */
  ghost predicate Possible(s: State, e: Event, retention: Retention) {
    match e
    case Check(caller, _, _) => caller !in s.callers && caller !in s.inFlight
    case Store(caller, _, _, _) => caller in s.callers
    case Finish(caller, _, _) => caller in s.inFlight
    case Count(_) => s.uncounted > 0
    case Prune(kept, now) => s.decided > 0 && Retains(s.records, kept, retention, now, false)
    case Clear => true
  }

  /** `maybePruneRuns` decides on a prune. */
  predicate Due(s: State, now: int) {
    s.lastPrune.None? || now - s.lastPrune.value >= PRUNE_EVERY || s.sincePrune + 1 >= PRUNE_EVERY_N
  }

  /** The check, with its answer remembered by the caller. */
  function Checked(s: State, caller: nat, name: string, allowConcurrent: bool): State {
    s.(callers := s.callers[caller := Caller(name, !allowConcurrent && HasRunning(s.records, name))])
  }

  function NewRun(c: Caller, id: string, startedAt: int, detail: string): Run {
    Run(id, c.name, if c.skip then Skipped else Running, startedAt, detail)
  }

  /** The save: a running record and its execution, or a skipped record. */
  function Saved(s: State, caller: nat, run: Run): State {
    var t := s.(records := s.records[run.id := run], callers := s.callers - {caller}, used := s.used + {run.id},
                stored := s.stored + 1);
    if run.status == Running then t.(inFlight := s.inFlight[caller := run]) else t.(uncounted := s.uncounted + 1)
  }

  /** The end of an execution, written from the run it captured. */
  function Finished(s: State, caller: nat, succeeded: bool, detail: string): State
    requires caller in s.inFlight
  {
    var run := Ended(s.inFlight[caller], succeeded, detail);
    s.(records := s.records[run.id := run], inFlight := s.inFlight - {caller}, uncounted := s.uncounted + 1)
  }

  function Ended(run: Run, succeeded: bool, detail: string): Run {
    run.(status := if succeeded then Succeeded else Failed, detail := detail)
  }

  /** The bookkeeping half of `maybePruneRuns`. */
  function Counted(s: State, now: int): State
    requires s.uncounted > 0
  {
    if Due(s, now)
    then s.(uncounted := s.uncounted - 1, sincePrune := 0, lastPrune := Some(now), decided := s.decided + 1)
    else s.(uncounted := s.uncounted - 1, sincePrune := s.sincePrune + 1)
  }

  function PrunedTo(s: State, kept: RunMap): State
    requires s.decided > 0
  {
    s.(records := kept, decided := s.decided - 1, pruned := s.pruned + |s.records.Keys - kept.Keys|)
  }

  ghost function After(s: State, e: Event, retention: Retention): State
    requires Possible(s, e, retention)
  {
    match e
    case Check(caller, name, allowConcurrent) => Checked(s, caller, name, allowConcurrent)
    case Store(caller, id, startedAt, detail) => Saved(s, caller, NewRun(s.callers[caller], id, startedAt, detail))
    case Finish(caller, succeeded, detail) => Finished(s, caller, succeeded, detail)
    case Count(now) => Counted(s, now)
    case Prune(kept, _) => PrunedTo(s, kept)
    case Clear => s.(records := map[], orphans := {})
  }

  // ------------------------------------------------------------------- runs

  ghost predicate AllPossible(s: State, events: seq<Event>, retention: Retention)
    decreases |events|
  {
    events != [] ==>
      Possible(s, events[0], retention) && AllPossible(After(s, events[0], retention), events[1..], retention)
  }

  ghost function Final(s: State, events: seq<Event>, retention: Retention): State
    requires AllPossible(s, events, retention)
    decreases |events|
  {
    if events == [] then s else Final(After(s, events[0], retention), events[1..], retention)
  }

  /** A freshly started engine, after its startup prune. */
  ghost predicate Initial(s: State, retention: Retention) {
    && Keyed(s.records) && s.callers == map[] && s.inFlight == map[]
    && s.orphans == RunningIds(s.records) && s.records.Keys <= s.used
    && s.uncounted == 0 && s.sincePrune == 0 && s.decided == 0
    && s.stored == |s.records| && s.pruned == 0
    && |CompletedIds(s.records)| <= retention.maxRecords
  }

  /** The retention defaults of `ApplyDefaults`. */
  function WithDefaults(r: Retention): Retention {
    Retention(if r.maxRecords == 0 then 10_000 else r.maxRecords, if r.maxAgeDays == 0 then 30 else r.maxAgeDays)
  }

  /** The limits an empty configuration gets, and that set ones stand. */
  lemma DefaultLimits(r: Retention)
    ensures WithDefaults(Retention(0, 0)) == Retention(10_000, 30)
    ensures r.maxRecords != 0 && r.maxAgeDays != 0 ==> WithDefaults(r) == r
  {
  }

  /** `ValidateRunRetention`, which `NewEngine` calls after the defaults. */
  predicate Acceptable(r: Retention) {
    r.maxRecords >= 0 && r.maxAgeDays >= 0
  }

  // ---------------------------------------------------------------- cadence

  /** Completed records never exceed the limit by more than the runs since the
      last prune, the runs not counted yet and a hundred for each prune due. */
  ghost predicate WithinCadence(s: State, retention: Retention) {
    && s.sincePrune < PRUNE_EVERY_N
    && |CompletedIds(s.records)| <= retention.maxRecords + s.sincePrune + s.uncounted + PRUNE_EVERY_N * s.decided
  }

  lemma OneMore(m: RunMap, run: Run)
    ensures |CompletedIds(m[run.id := run])| <= |CompletedIds(m)| + 1
    ensures !run.Completed() ==> |CompletedIds(m[run.id := run])| <= |CompletedIds(m)|
  {
    var a, b := CompletedIds(m[run.id := run]), CompletedIds(m);
    if run.Completed() {
      Subset(a, b + {run.id});
    } else {
      Subset(a, b);
    }
  }

  lemma {:induction false} Subset<T>(a: set<T>, b: set<T>)
    requires a <= b
    ensures |a| <= |b|
    decreases a
  {
    if a != {} {
      var x :| x in a;
      Subset(a - {x}, b - {x});
    }
  }

  lemma StepCadence(s: State, e: Event, retention: Retention)
    requires retention.maxRecords > 0 && WithinCadence(s, retention) && Possible(s, e, retention)
    ensures WithinCadence(After(s, e, retention), retention)
  {
    var t := After(s, e, retention);
    match e
    case Check(_, _, _) =>
    case Store(_, id, _, _) => OneMore(s.records, t.records[id]);
    case Finish(caller, succeeded, detail) => OneMore(s.records, Ended(s.inFlight[caller], succeeded, detail));
    case Count(_) =>
    case Prune(kept, now) =>
    case Clear => assert CompletedIds(map[]) == {};
  }

  /** Every state of every run is within the cadence bound, whether run ids
      repeat or not and whether the log is cleared or not. */
  lemma {:induction false} RunsWithinCadence(s: State, events: seq<Event>, retention: Retention)
    requires retention.maxRecords > 0
    requires WithinCadence(s, retention) && AllPossible(s, events, retention)
    ensures WithinCadence(Final(s, events, retention), retention)
    decreases |events|
  {
    if events != [] {
      StepCadence(s, events[0], retention);
      RunsWithinCadence(After(s, events[0], retention), events[1..], retention);
    }
  }

  // ------------------------------------------------------------ conservation

  /** The event does not save a run under an id used before. */
  predicate NewId(used: set<string>, e: Event) {
    e.Store? ==> e.id !in used
  }

  /** No two saves share an id, and none takes one already used. */
  predicate NewIds(used: set<string>, events: seq<Event>)
    decreases |events|
  {
    events != [] ==>
      NewId(used, events[0]) && NewIds(if events[0].Store? then used + {events[0].id} else used, events[1..])
  }

  /** Each execution in flight has its own running record, stored as it was
      captured; any other running record is an orphan. */
  ghost predicate Accounted(records: RunMap, inFlight: map<nat, Run>, orphans: set<string>) {
    && (forall c :: c in inFlight ==> InLog(inFlight[c], records) && inFlight[c].status == Running)
    && (forall c, d :: c in inFlight && d in inFlight && c != d ==> inFlight[c].id != inFlight[d].id)
    && (forall id :: id in orphans ==> id in records && records[id].status == Running)
    && (forall c :: c in inFlight ==> inFlight[c].id !in orphans)
    && (forall id :: id in records && records[id].status == Running ==> id in ExecutionIds(inFlight) || id in orphans)
  }

  predicate InLog(run: Run, records: RunMap) {
    run.id in records && records[run.id] == run
  }

  function ExecutionIds(inFlight: map<nat, Run>): set<string> {
    set c | c in inFlight :: inFlight[c].id
  }

  /** Running records are accounted for, and every record ever stored is still
      there or was pruned. */
  ghost predicate Conserved(s: State) {
    && Keyed(s.records)
    && s.records.Keys <= s.used
    && s.callers.Keys !! s.inFlight.Keys
    && Accounted(s.records, s.inFlight, s.orphans)
    && s.stored == |s.records| + s.pruned
  }

  lemma AccountedIds(records: RunMap, inFlight: map<nat, Run>, orphans: set<string>)
    requires Accounted(records, inFlight, orphans)
    ensures ExecutionIds(inFlight) !! orphans && RunningIds(records) == ExecutionIds(inFlight) + orphans
    ensures |RunningIds(records)| == |inFlight| + |orphans|
  {
    OwnIds(inFlight);
  }

  lemma OneExecution(inFlight: map<nat, Run>, c: nat)
    requires c in inFlight
    ensures ExecutionIds(inFlight) == ExecutionIds(inFlight - {c}) + {inFlight[c].id}
  {
    forall id | id in ExecutionIds(inFlight) ensures id in ExecutionIds(inFlight - {c}) + {inFlight[c].id} {
      var d :| d in inFlight && inFlight[d].id == id;
      if d != c { assert d in inFlight - {c}; }
    }
  }

  /** Executions with their own ids are as many as the ids. */
  lemma {:induction false} OwnIds(inFlight: map<nat, Run>)
    requires forall c, d :: c in inFlight && d in inFlight && c != d ==> inFlight[c].id != inFlight[d].id
    ensures |ExecutionIds(inFlight)| == |inFlight|
    decreases |inFlight|
  {
    if inFlight != map[] {
      var c :| c in inFlight;
      var rest := inFlight - {c};
      assert rest.Keys == inFlight.Keys - {c};
      OwnIds(rest);
      OneExecution(inFlight, c);
    }
  }

  /** The calls whose execution of the schedule is in flight. */
  function ExecutionsOf(inFlight: map<nat, Run>, name: string): set<nat> {
    set c | c in inFlight && inFlight[c].scheduleName == name
  }

  /** Executions in flight have their own running records. */
  lemma ExecutionsRunning(records: RunMap, inFlight: map<nat, Run>, orphans: set<string>, name: string)
    requires Accounted(records, inFlight, orphans)
    ensures |ExecutionsOf(inFlight, name)| <= |RunningOf(records, name)|
    ensures orphans == {} ==> |ExecutionsOf(inFlight, name)| == |RunningOf(records, name)|
  {
    var mine := map c | c in ExecutionsOf(inFlight, name) :: inFlight[c];
    assert mine.Keys == ExecutionsOf(inFlight, name);
    OwnIds(mine);
    forall c | c in mine ensures mine[c].id in RunningOf(records, name) { assert InLog(inFlight[c], records); }
    Subset(ExecutionIds(mine), RunningOf(records, name));
    if orphans == {} {
      forall id | id in RunningOf(records, name) ensures id in ExecutionIds(mine) {
        var c :| c in inFlight && inFlight[c].id == id;
        assert InLog(inFlight[c], records) && c in mine;
      }
      Subset(RunningOf(records, name), ExecutionIds(mine));
    }
  }

  lemma StepConserves(s: State, e: Event, retention: Retention)
    requires Conserved(s) && Possible(s, e, retention) && NewId(s.used, e) && !e.Clear?
    ensures Conserved(After(s, e, retention))
  {
    match e
    case Check(_, _, _) =>
    case Store(caller, id, startedAt, detail) =>
      SaveConserves(s, caller, NewRun(s.callers[caller], id, startedAt, detail));
    case Finish(caller, succeeded, detail) => FinishConserves(s, caller, succeeded, detail);
    case Count(_) =>
    case Prune(kept, _) => PruneConserves(s, kept);
  }

  lemma SaveConserves(s: State, caller: nat, run: Run)
    requires Conserved(s) && run.id !in s.used && caller in s.callers
    ensures Conserved(Saved(s, caller, run))
  {
    assert run.id !in s.records;
    Enters(s.records, s.inFlight, s.orphans, caller, run);
    PutSize(s.records, run);
  }

  lemma PutSize(m: RunMap, run: Run)
    requires Keyed(m) && run.id !in m
    ensures Keyed(m[run.id := run]) && |m[run.id := run]| == |m| + 1
    ensures m[run.id := run].Keys == m.Keys + {run.id}
  {
  }

  /** A new record enters the log, and the executions when it is running. */
  lemma Enters(records: RunMap, inFlight: map<nat, Run>, orphans: set<string>, caller: nat, run: Run)
    requires run.id !in records && caller !in inFlight && Accounted(records, inFlight, orphans)
    ensures run.status == Running ==> Accounted(records[run.id := run], inFlight[caller := run], orphans)
    ensures run.status != Running ==> Accounted(records[run.id := run], inFlight, orphans)
  {
    OneExecution(inFlight[caller := run], caller);
    assert inFlight[caller := run] - {caller} == inFlight;
  }

  lemma FinishConserves(s: State, caller: nat, succeeded: bool, detail: string)
    requires Conserved(s) && caller in s.inFlight
    ensures Conserved(Finished(s, caller, succeeded, detail))
  {
    var run, rest := s.inFlight[caller], s.inFlight - {caller};
    assert InLog(run, s.records);
    assert Finished(s, caller, succeeded, detail).records.Keys == s.records.Keys;
    OneExecution(s.inFlight, caller);
  }

  lemma PruneConserves(s: State, kept: RunMap)
    requires Conserved(s) && s.decided > 0
    requires SubMap(kept, s.records) && forall id :: id in s.records && s.records[id].status == Running ==> id in kept
    ensures Conserved(PrunedTo(s, kept))
  {
    assert s.records.Keys == kept.Keys + (s.records.Keys - kept.Keys);
  }

  /** What one step may do to a record: an execution in flight is never pruned
      and ends once; a finished record stays as it is until it is pruned; an id
      is born skipped or running, and never used again. */
  ghost predicate RecordStep(s: State, t: State, id: string) {
    && (id in ExecutionIds(s.inFlight) && id in s.records ==>
          && id in t.records
          && (t.records[id] == s.records[id] || (t.records[id].Completed() && id !in ExecutionIds(t.inFlight))))
    && (id in s.records && s.records[id].Completed() && id in t.records ==> t.records[id] == s.records[id])
    && (id in s.used && id !in s.records ==> id !in t.records)
    && (id !in s.used && id in t.records ==> t.records[id].status in {Running, Skipped} && id in t.used)
    && (id in s.used ==> id in t.used)
  }

  lemma StepRecord(s: State, e: Event, retention: Retention, id: string)
    requires Conserved(s) && Possible(s, e, retention) && NewId(s.used, e) && !e.Clear?
    ensures RecordStep(s, After(s, e, retention), id)
  {
    match e
    case Check(_, _, _) =>
    case Store(caller, new', startedAt, detail) =>
      SaveRecord(s, caller, NewRun(s.callers[caller], new', startedAt, detail), id);
    case Finish(caller, succeeded, detail) => FinishRecord(s, caller, succeeded, detail, id);
    case Count(_) =>
    case Prune(kept, _) => PruneRecord(s, kept, id);
  }

  lemma SaveRecord(s: State, caller: nat, run: Run, id: string)
    requires Conserved(s) && run.id !in s.used && run.status in {Running, Skipped}
    ensures RecordStep(s, Saved(s, caller, run), id)
  {
  }

  lemma FinishRecord(s: State, caller: nat, succeeded: bool, detail: string, id: string)
    requires Conserved(s) && caller in s.inFlight
    ensures RecordStep(s, Finished(s, caller, succeeded, detail), id)
  {
    assert InLog(s.inFlight[caller], s.records);
  }

  lemma PruneRecord(s: State, kept: RunMap, id: string)
    requires Conserved(s) && s.decided > 0
    requires SubMap(kept, s.records) && forall id :: id in s.records && s.records[id].status == Running ==> id in kept
    ensures RecordStep(s, PrunedTo(s, kept), id)
  {
    forall c | c in s.inFlight && s.inFlight[c].id == id ensures id in kept { assert InLog(s.inFlight[c], s.records); }
  }

  lemma {:induction false} FinishedStays(s: State, events: seq<Event>, retention: Retention, id: string)
    requires Conserved(s) && AllPossible(s, events, retention) && Clear !in events && NewIds(s.used, events)
    requires id in s.used && (id in s.records ==> s.records[id].Completed())
    ensures var t := Final(s, events, retention); id in t.records ==> id in s.records && t.records[id] == s.records[id]
    decreases |events|
  {
    if events != [] {
      StepConserves(s, events[0], retention);
      StepRecord(s, events[0], retention, id);
      FinishedStays(After(s, events[0], retention), events[1..], retention, id);
    }
  }

  /** Every state of every run with fresh ids and no clear conserves the records. */
  lemma {:induction false} RunsConserve(s: State, events: seq<Event>, retention: Retention)
    requires Clear !in events && NewIds(s.used, events) && Conserved(s) && AllPossible(s, events, retention)
    ensures Conserved(Final(s, events, retention))
    decreases |events|
  {
    if events != [] {
      StepConserves(s, events[0], retention);
      RunsConserve(After(s, events[0], retention), events[1..], retention);
    }
  }

  // ---------------------------------------------------- what a record says

  /** The check: the caller will skip exactly when concurrent runs are off and a
      record of the schedule is running. */
  lemma CheckAnswers(s: State, caller: nat, name: string, allowConcurrent: bool, retention: Retention)
    requires Possible(s, Check(caller, name, allowConcurrent), retention)
    ensures var t := After(s, Check(caller, name, allowConcurrent), retention);
      && t.records == s.records && caller in t.callers && t.callers[caller].name == name
      && (t.callers[caller].skip <==>
            && !allowConcurrent
            && exists id :: id in s.records && s.records[id].status == Running && s.records[id].scheduleName == name)
  {
  }

  /** The save: one record changes, to a skipped or running run of the caller's
      schedule, and a running one has its execution. */
  lemma StoreRecords(s: State, caller: nat, id: string, startedAt: int, detail: string, retention: Retention)
    requires caller in s.callers && caller !in s.inFlight
    ensures var t := After(s, Store(caller, id, startedAt, detail), retention);
      var skip := s.callers[caller].skip;
      && t.records == s.records[id := Run(id, s.callers[caller].name, if skip then Skipped else Running,
                                          startedAt, detail)]
      && (caller in t.inFlight <==> !skip) && (!skip ==> t.inFlight[caller] == t.records[id])
      && caller !in t.callers
  {
  }

  /** The end: the record under the captured id says whether the execution
      succeeded, and otherwise what the execution captured; no other changes. */
  lemma FinishRecords(s: State, caller: nat, succeeded: bool, detail: string, retention: Retention)
    requires Possible(s, Finish(caller, succeeded, detail), retention)
    ensures var t, run := After(s, Finish(caller, succeeded, detail), retention), s.inFlight[caller];
      && t.records == s.records[run.id := Run(run.id, run.scheduleName, if succeeded then Succeeded else Failed,
                                              run.startedAt, detail)]
      && caller !in t.inFlight
  {
  }

  /** The end of the execution in flight, if it comes. */
  function FirstFinish(events: seq<Event>, caller: nat): Option<Event> {
    if events == [] then None
    else if events[0].Finish? && events[0].caller == caller then Some(events[0])
    else FirstFinish(events[1..], caller)
  }

  /** Over every history with fresh ids and no clear, the record of an execution
      is running until its end and says from then on, as long as it is there,
      whether that end was a success. */
  lemma {:induction false} RunsOutcome(s: State, events: seq<Event>, retention: Retention, caller: nat)
    requires Conserved(s) && caller in s.inFlight
    requires AllPossible(s, events, retention) && Clear !in events && NewIds(s.used, events)
    ensures var run, t := s.inFlight[caller], Final(s, events, retention);
      match FirstFinish(events, caller)
      case None => caller in t.inFlight && run.id in t.records && t.records[run.id] == run && run.status == Running
      case Some(e) => e.Finish? && (run.id in t.records ==>
        t.records[run.id] == Run(run.id, run.scheduleName, if e.succeeded then Succeeded else Failed,
                                 run.startedAt, e.detail))
    decreases |events|
  {
    var run := s.inFlight[caller];
    assert InLog(run, s.records);
    if events != [] {
      var e, t := events[0], After(s, events[0], retention);
      StepConserves(s, e, retention);
      if e.Finish? && e.caller == caller {
        FinishRecords(s, caller, e.succeeded, e.detail, retention);
        FinishedStays(t, events[1..], retention, run.id);
      } else {
        StaysInFlight(s, e, retention, caller);
        RunsOutcome(t, events[1..], retention, caller);
      }
    }
  }

  lemma StaysInFlight(s: State, e: Event, retention: Retention, caller: nat)
    requires Conserved(s) && Possible(s, e, retention) && caller in s.inFlight
    requires !(e.Finish? && e.caller == caller)
    ensures var t := After(s, e, retention); caller in t.inFlight && t.inFlight[caller] == s.inFlight[caller]
  {
  }

  // ------------------------------------------------------ when a prune is due

  /** Counting a run makes a prune due exactly when none has been made, the last
      was five minutes ago or more, or this is the hundredth run since. */
  lemma CountDecides(s: State, now: int, retention: Retention)
    requires Possible(s, Count(now), retention)
    ensures var t := After(s, Count(now), retention);
      var due := s.lastPrune == None || now - s.lastPrune.value >= 300_000_000_000 || s.sincePrune >= 99;
      && t.uncounted == s.uncounted - 1 && t.records == s.records
      && t.decided == s.decided + (if due then 1 else 0)
      && t.sincePrune == (if due then 0 else s.sincePrune + 1)
      && t.lastPrune == (if due then Some(now) else s.lastPrune)
  {
  }

  function Counts(events: seq<Event>): nat {
    if events == [] then 0 else (if events[0].Count? then 1 else 0) + Counts(events[1..])
  }

  lemma {:induction false} SinceBound(s: State, events: seq<Event>, retention: Retention)
    requires AllPossible(s, events, retention)
    ensures Final(s, events, retention).sincePrune <= s.sincePrune + Counts(events)
    decreases |events|
  {
    if events != [] {
      SinceBound(After(s, events[0], retention), events[1..], retention);
    }
  }

  /** A stretch of history in which no prune becomes due, so that every run
      counted in it still counts, holds fewer than a hundred counted runs, all
      within five minutes of the last prune. */
  lemma {:induction false} QuietStretch(s: State, events: seq<Event>, retention: Retention)
    requires AllPossible(s, events, retention) && s.lastPrune.Some? && s.sincePrune < 100
    requires Final(s, events, retention).sincePrune == s.sincePrune + Counts(events)
    ensures s.sincePrune + Counts(events) < 100
    ensures forall i :: 0 <= i < |events| && events[i].Count? ==> events[i].now - s.lastPrune.value < 300_000_000_000
    decreases |events|
  {
    if events != [] {
      var t := After(s, events[0], retention);
      SinceBound(t, events[1..], retention);
      if events[0].Count? { CountDecides(s, events[0].now, retention); }
      QuietStretch(t, events[1..], retention);
      assert events == [events[0]] + events[1..];
    }
  }

  /** From a fresh start: once every finalised run is counted and no prune is
      due, at most 99 completed records exceed the limit. With fresh ids and no
      clear, triggers are conserved and the running records are the executions
      in flight, one each, and the orphans. */
  lemma FromStart(s: State, events: seq<Event>, configured: Retention, retention: Retention)
    requires retention == WithDefaults(configured) && Acceptable(retention)
    requires Initial(s, retention) && AllPossible(s, events, retention)
    ensures var t := Final(s, events, retention);
      t.uncounted == 0 && t.decided == 0 ==>
        && |set id | id in t.records && t.records[id].status != Running| <= retention.maxRecords + 99
        && (configured.maxRecords == 0 ==> |set id | id in t.records && t.records[id].status != Running| <= 10_099)
    ensures Clear !in events && NewIds(s.used, events) ==>
              var t := Final(s, events, retention);
              && |s.records| + Stores(events) == |t.records| + t.pruned
              && RunningIds(t.records) == ExecutionIds(t.inFlight) + s.orphans
              && |RunningIds(t.records)| == |t.inFlight| + |s.orphans|
  {
    RunsWithinCadence(s, events, retention);
    SizeSplit(Final(s, events, retention).records);
    if Clear !in events && NewIds(s.used, events) {
      RunsConserve(s, events, retention);
      OrphansStay(s, events, retention);
      StoresCounted(s, events, retention);
      var t := Final(s, events, retention);
      AccountedIds(t.records, t.inFlight, t.orphans);
    }
  }

  /** The triggers accepted in a history: each saves one record. */
  function Stores(events: seq<Event>): nat {
    if events == [] then 0 else (if events[0].Store? then 1 else 0) + Stores(events[1..])
  }

  lemma {:induction false} StoresCounted(s: State, events: seq<Event>, retention: Retention)
    requires AllPossible(s, events, retention)
    ensures Final(s, events, retention).stored == s.stored + Stores(events)
    decreases |events|
  {
    if events != [] { StoresCounted(After(s, events[0], retention), events[1..], retention); }
  }

  lemma {:induction false} OrphansStay(s: State, events: seq<Event>, retention: Retention)
    requires AllPossible(s, events, retention) && Clear !in events
    ensures Final(s, events, retention).orphans == s.orphans
    decreases |events|
  {
    if events != [] { OrphansStay(After(s, events[0], retention), events[1..], retention); }
  }

  /** The fresh ids matter: a save keeps the count of records right exactly
      when no record has its id. */
  lemma SaveCounts(s: State, caller: nat, run: Run)
    requires s.stored == |s.records| + s.pruned
    ensures var t := Saved(s, caller, run);
      t.stored == |t.records| + t.pruned <==> run.id !in s.records
  {
    var t := Saved(s, caller, run);
    assert t.records.Keys == s.records.Keys + {run.id};
    assert |t.records| == |t.records.Keys| && |s.records| == |s.records.Keys|;
  }

  // ----------------------------------------------------------------- overlap

  /** Running records of `name` and callers past its check, together. */
  function Overlap(s: State, name: string): nat {
    |RunningOf(s.records, name)| + |PastCheck(s.callers, name)|
  }

  /** `name` keeps allow_concurrent_runs off, and at no time are more than
      `limit` callers between check and save for it. */
  ghost predicate Exclusive(s: State, events: seq<Event>, retention: Retention, name: string, limit: nat)
    requires AllPossible(s, events, retention)
    decreases |events|
  {
    |CallersOf(s.callers, name)| <= limit &&
    (events != [] ==>
       && (events[0].Check? && events[0].name == name ==> !events[0].allowConcurrent)
       && Exclusive(After(s, events[0], retention), events[1..], retention, name, limit))
  }

  lemma StepOverlap(s: State, e: Event, retention: Retention, name: string, limit: nat)
    requires Possible(s, e, retention) && Overlap(s, name) <= limit
    requires e.Check? && e.name == name ==> !e.allowConcurrent
    requires |CallersOf(After(s, e, retention).callers, name)| <= limit
    ensures Overlap(After(s, e, retention), name) <= limit
  {
    match e
    case Check(caller, n, allowConcurrent) => CheckOverlap(s, caller, n, allowConcurrent, name, limit);
    case Store(caller, id, startedAt, detail) => SaveOverlap(s, caller, id, startedAt, detail, name);
    case Finish(caller, succeeded, detail) =>
      PutRunningOf(s.records, Ended(s.inFlight[caller], succeeded, detail), name);
    case Count(_) =>
    case Prune(kept, _) => Subset(RunningOf(kept, name), RunningOf(s.records, name));
    case Clear => assert RunningOf(map[], name) == {};
  }

  lemma CheckOverlap(s: State, caller: nat, n: string, allowConcurrent: bool, name: string, limit: nat)
    requires caller !in s.callers && Overlap(s, name) <= limit && (n == name ==> !allowConcurrent)
    requires |CallersOf(Checked(s, caller, n, allowConcurrent).callers, name)| <= limit
    ensures Overlap(Checked(s, caller, n, allowConcurrent), name) <= limit
  {
    var t := Checked(s, caller, n, allowConcurrent);
    if n == name && !HasRunning(s.records, name) {
      assert RunningOf(s.records, name) == {};
      Subset(PastCheck(t.callers, name), CallersOf(t.callers, name));
    } else {
      assert PastCheck(t.callers, name) == PastCheck(s.callers, name);
    }
  }

  lemma PutRunningOf(m: RunMap, run: Run, name: string)
    ensures |RunningOf(m[run.id := run], name)|
         <= |RunningOf(m, name)| + (if run.status == Running && run.scheduleName == name then 1 else 0)
  {
    var a, b := RunningOf(m[run.id := run], name), RunningOf(m, name);
    Subset(a, if run.status == Running && run.scheduleName == name then b + {run.id} else b);
  }

  lemma DropCaller(callers: map<nat, Caller>, c: nat, name: string)
    requires c in callers
    ensures |PastCheck(callers - {c}, name)|
         == |PastCheck(callers, name)| - (if callers[c].name == name && !callers[c].skip then 1 else 0)
  {
    if callers[c].name == name && !callers[c].skip {
      assert PastCheck(callers - {c}, name) == PastCheck(callers, name) - {c};
    } else {
      assert PastCheck(callers - {c}, name) == PastCheck(callers, name);
    }
  }

  lemma SaveOverlap(s: State, caller: nat, id: string, startedAt: int, detail: string, name: string)
    requires caller in s.callers
    ensures Overlap(Saved(s, caller, NewRun(s.callers[caller], id, startedAt, detail)), name) <= Overlap(s, name)
  {
    PutRunningOf(s.records, NewRun(s.callers[caller], id, startedAt, detail), name);
    DropCaller(s.callers, caller, name);
  }

  /** Over every run, running records and callers past the check never exceed
      the number of concurrent callers. */
  lemma {:induction false} OverlapBound(s: State, events: seq<Event>, retention: Retention, name: string, limit: nat)
    requires AllPossible(s, events, retention) && Exclusive(s, events, retention, name, limit)
    requires Overlap(s, name) <= limit
    ensures Overlap(Final(s, events, retention), name) <= limit
    decreases |events|
  {
    if events != [] {
      StepOverlap(s, events[0], retention, name, limit);
      OverlapBound(After(s, events[0], retention), events[1..], retention, name, limit);
    }
  }

  function Idle(): State {
    State(map[], map[], map[], {}, {}, 0, 0, None, 0, 0, 0)
  }

  /** `n` calls for `name` all pass the check before any of them saves: `checked`
      have passed it and `saved` have saved so far. */
  function Rush(name: string, checked: nat, saved: nat, n: nat): seq<Event>
    requires saved <= checked <= n
    decreases n - checked, n - saved
  {
    if checked < n then [Check(checked, name, false)] + Rush(name, checked + 1, saved, n)
    else if saved < n then [Store(saved, Mark(saved), 0, "")] + Rush(name, n, saved + 1, n)
    else []
  }

  /** Ids that differ in length. */
  function Mark(i: nat): string {
    seq(i, _ => 'a')
  }

  ghost predicate InRush(s: State, name: string, checked: nat, saved: nat, n: nat) {
    && saved <= checked <= n && (saved > 0 ==> checked == n)
    && (forall c :: c in s.callers <==> saved <= c < checked)
    && (forall c :: c in s.callers ==> s.callers[c] == Caller(name, false))
    && (forall c :: c in s.inFlight ==> c < saved)
    && (forall id :: id in s.used ==> |id| < saved)
    && s.records.Keys <= s.used
    && |RunningOf(s.records, name)| == saved
  }

  function Numbers(n: nat): set<nat> {
    if n == 0 then {} else Numbers(n - 1) + {n - 1}
  }

  lemma {:induction false} NumbersBelow(n: nat)
    ensures |Numbers(n)| == n && forall c: nat :: c in Numbers(n) <==> c < n
  {
    if n > 0 { NumbersBelow(n - 1); }
  }

  lemma RushCallers(s: State, name: string, checked: nat, saved: nat, n: nat)
    requires InRush(s, name, checked, saved, n)
    ensures |CallersOf(s.callers, name)| <= n
  {
    NumbersBelow(n);
    Subset(CallersOf(s.callers, name), Numbers(n));
  }

  lemma FoundIffRunning(m: RunMap, name: string)
    ensures HasRunning(m, name) <==> RunningOf(m, name) != {}
  {
    if HasRunning(m, name) {
      var id :| id in m && m[id].status == Running && m[id].scheduleName == name;
      assert id in RunningOf(m, name);
    }
  }

  lemma RushCheck(s: State, name: string, checked: nat, n: nat, retention: Retention)
    requires InRush(s, name, checked, 0, n) && checked < n
    ensures var e := Check(checked, name, false);
      Possible(s, e, retention) && InRush(After(s, e, retention), name, checked + 1, 0, n)
  {
    FoundIffRunning(s.records, name);
  }

  lemma RushSave(s: State, name: string, saved: nat, n: nat, retention: Retention)
    requires InRush(s, name, n, saved, n) && saved < n
    ensures var e := Store(saved, Mark(saved), 0, "");
      && Possible(s, e, retention) && Mark(saved) !in s.used
      && InRush(After(s, e, retention), name, n, saved + 1, n)
  {
    var t := After(s, Store(saved, Mark(saved), 0, ""), retention);
    assert RunningOf(t.records, name) == RunningOf(s.records, name) + {Mark(saved)};
  }

  lemma {:induction false} RushPasses(s: State, name: string, checked: nat, saved: nat, n: nat, retention: Retention)
    requires InRush(s, name, checked, saved, n)
    ensures var events := Rush(name, checked, saved, n);
      && NewIds(s.used, events) && AllPossible(s, events, retention)
      && Exclusive(s, events, retention, name, n) && Clear !in events
      && |RunningOf(Final(s, events, retention).records, name)| == n
    decreases n - checked, n - saved
  {
    var events := Rush(name, checked, saved, n);
    RushCallers(s, name, checked, saved, n);
    if checked < n {
      RushCheck(s, name, checked, n, retention);
      assert events[1..] == Rush(name, checked + 1, saved, n);
      RushPasses(After(s, events[0], retention), name, checked + 1, saved, n, retention);
    } else if saved < n {
      RushSave(s, name, saved, n, retention);
      assert events[1..] == Rush(name, n, saved + 1, n);
      RushPasses(After(s, events[0], retention), name, n, saved + 1, n, retention);
    }
  }

  /** Without clears and repeated ids the records tell the truth: executions of
      the schedule in flight never exceed the number of concurrent callers. */
  lemma ExecutionBound(s: State, events: seq<Event>, retention: Retention, name: string, limit: nat)
    requires Conserved(s) && Clear !in events && NewIds(s.used, events)
    requires AllPossible(s, events, retention) && Exclusive(s, events, retention, name, limit)
    requires Overlap(s, name) <= limit
    ensures |ExecutionsOf(Final(s, events, retention).inFlight, name)| <= limit
  {
    OverlapBound(s, events, retention, name, limit);
    RunsConserve(s, events, retention);
    var t := Final(s, events, retention);
    ExecutionsRunning(t.records, t.inFlight, t.orphans, name);
  }

  /** The bound is reached for any number of callers: the check and the save are
      two steps, so `n` callers can have `n` executions in flight of a schedule
      that does not allow concurrent runs. */
  lemma CallersOverlap(name: string, n: nat, retention: Retention)
    ensures exists events ::
              && NewIds({}, events) && Clear !in events && AllPossible(Idle(), events, retention)
              && Exclusive(Idle(), events, retention, name, n)
              && |ExecutionsOf(Final(Idle(), events, retention).inFlight, name)| == n
  {
    var events := Rush(name, 0, 0, n);
    assert RunningOf(Idle().records, name) == {};
    RushPasses(Idle(), name, 0, 0, n, retention);
    RunsConserve(Idle(), events, retention);
    OrphansStay(Idle(), events, retention);
    var t := Final(Idle(), events, retention);
    ExecutionsRunning(t.records, t.inFlight, t.orphans, name);
  }

  /** A whole trigger call, with no other call between its check and its save. */
  function Call(caller: nat, name: string, id: string): seq<Event> {
    [Check(caller, name, false), Store(caller, id, 0, "")]
  }

  function Called(s: State, caller: nat, name: string, id: string): State {
    Saved(Checked(s, caller, name, false), caller, NewRun(Caller(name, HasRunning(s.records, name)), id, 0, ""))
  }

  /** A whole call is possible when no other is between check and save, and it
      counts as one concurrent caller. */
  lemma CallPasses(s: State, caller: nat, name: string, id: string, rest: seq<Event>, retention: Retention)
    requires s.callers == map[] && caller !in s.inFlight
    requires var t := Called(s, caller, name, id);
      AllPossible(t, rest, retention) && Exclusive(t, rest, retention, name, 1)
    ensures var events := Call(caller, name, id) + rest;
      && AllPossible(s, events, retention) && Exclusive(s, events, retention, name, 1)
      && Final(s, events, retention) == Final(Called(s, caller, name, id), rest, retention)
  {
    var e, f, events := Check(caller, name, false), Store(caller, id, 0, ""), Call(caller, name, id) + rest;
    var t := Checked(s, caller, name, false);
    assert events == [e] + ([f] + rest);
    assert t.callers.Keys == {caller};
    Subset(CallersOf(t.callers, name), {caller});
    assert CallersOf(s.callers, name) == {};
    Prepend(t, f, rest, retention, name);
    Prepend(s, e, [f] + rest, retention, name);
  }

  lemma Prepend(s: State, e: Event, rest: seq<Event>, retention: Retention, name: string)
    requires Possible(s, e, retention) && AllPossible(After(s, e, retention), rest, retention)
    requires Exclusive(After(s, e, retention), rest, retention, name, 1)
    requires |CallersOf(s.callers, name)| <= 1 && (e.Check? && e.name == name ==> !e.allowConcurrent)
    ensures AllPossible(s, [e] + rest, retention) && Exclusive(s, [e] + rest, retention, name, 1)
    ensures Final(s, [e] + rest, retention) == Final(After(s, e, retention), rest, retention)
  {
    assert ([e] + rest)[1..] == rest;
  }

  lemma CallsStop(s: State, retention: Retention, name: string)
    requires s.callers == map[]
    ensures AllPossible(s, [], retention) && Exclusive(s, [], retention, name, 1) && Final(s, [], retention) == s
  {
    assert CallersOf(s.callers, name) == {};
  }

  /** Clearing the log in the middle of an execution lets a second one start,
      with triggers serialised and fresh ids. */
  lemma ClearedOverlap(name: string, retention: Retention)
    ensures var events := Call(0, name, "a") + ([Clear] + (Call(1, name, "b") + []));
      && NewIds({}, events) && AllPossible(Idle(), events, retention) && Exclusive(Idle(), events, retention, name, 1)
      && |ExecutionsOf(Final(Idle(), events, retention).inFlight, name)| == 2
  {
    var s1 := Called(Idle(), 0, name, "a");
    var s2 := After(s1, Clear, retention);
    var s3 := Called(s2, 1, name, "b");
    assert ExecutionsOf(s3.inFlight, name) == {0, 1};
    CallsStop(s3, retention, name);
    CallPasses(s2, 1, name, "b", [], retention);
    assert CallersOf(s1.callers, name) == {};
    Prepend(s1, Clear, Call(1, name, "b") + [], retention, name);
    CallPasses(Idle(), 0, name, "a", [Clear] + (Call(1, name, "b") + []), retention);
    CallIds({}, 0, name, "a", [Clear] + (Call(1, name, "b") + []));
    assert ([Clear] + (Call(1, name, "b") + []))[1..] == Call(1, name, "b") + [];
    CallIds({"a"}, 1, name, "b", []);
  }

  lemma CallIds(used: set<string>, caller: nat, name: string, id: string, rest: seq<Event>)
    ensures NewIds(used, Call(caller, name, id) + rest) <==> id !in used && NewIds(used + {id}, rest)
  {
    var events := Call(caller, name, id) + rest;
    assert events[1..] == [Store(caller, id, 0, "")] + rest;
    assert events[1..][1..] == rest;
  }

  /** The states of `RepeatedOverlap`: running, overwritten, running again. */
  lemma RepeatedStates(name: string)
    ensures var s1 := Called(Idle(), 0, name, "a");
      var s2 := Called(s1, 1, name, "a");
      var s3 := Called(s2, 2, name, "b");
      && s1.callers == s2.callers == s3.callers == map[]
      && 1 !in s1.inFlight && 2 !in s2.inFlight && ExecutionsOf(s3.inFlight, name) == {0, 2}
  {
    var running, skipped := Run("a", name, Running, 0, ""), Run("a", name, Skipped, 0, "");
    var s1 := Called(Idle(), 0, name, "a");
    assert s1.records == map["a" := running];
    assert s1.records["a"].status == Running && s1.records["a"].scheduleName == name;
    var s2 := Called(s1, 1, name, "a");
    assert s2.records == map["a" := skipped];
    var s3 := Called(s2, 2, name, "b");
    assert s3.inFlight == map[0 := running, 2 := Run("b", name, Running, 0, "")];
  }

  /** A skipped call under the id of the run in progress overwrites its record
      and lets a second execution start, with triggers serialised. */
  lemma RepeatedOverlap(name: string, retention: Retention)
    ensures var events := Call(0, name, "a") + (Call(1, name, "a") + (Call(2, name, "b") + []));
      && Clear !in events && AllPossible(Idle(), events, retention) && Exclusive(Idle(), events, retention, name, 1)
      && |ExecutionsOf(Final(Idle(), events, retention).inFlight, name)| == 2
  {
    RepeatedStates(name);
    var s1 := Called(Idle(), 0, name, "a");
    var s2 := Called(s1, 1, name, "a");
    CallsStop(Called(s2, 2, name, "b"), retention, name);
    CallPasses(s2, 2, name, "b", [], retention);
    CallPasses(s1, 1, name, "a", Call(2, name, "b") + [], retention);
    CallPasses(Idle(), 0, name, "a", Call(1, name, "a") + (Call(2, name, "b") + []), retention);
  }

  lemma EmptyCallers(callers: map<nat, Caller>, name: string)
    ensures CallersOf(callers, name) == {} ==> forall c :: c in callers ==> callers[c].name != name
  {
    forall c | c in callers && callers[c].name == name ensures CallersOf(callers, name) != {} {
      assert c in CallersOf(callers, name);
    }
  }

  /** Without callers nothing is executed. */
  lemma {:induction false} NoCallers(s: State, events: seq<Event>, retention: Retention, name: string)
    requires AllPossible(s, events, retention) && Exclusive(s, events, retention, name, 0)
    requires ExecutionsOf(s.inFlight, name) == {}
    ensures ExecutionsOf(Final(s, events, retention).inFlight, name) == {}
    decreases |events|
  {
    if events != [] {
      EmptyCallers(s.callers, name);
      NoCallers(After(s, events[0], retention), events[1..], retention, name);
    }
  }

  /** Histories with at most `n` concurrent callers of a schedule that does not
      allow concurrent runs, some with clears and some with repeated ids. */
  ghost predicate Admitted(events: seq<Event>, retention: Retention, name: string, n: nat,
                           clears: bool, repeats: bool)
  {
    && AllPossible(Idle(), events, retention) && Exclusive(Idle(), events, retention, name, n)
    && (clears || Clear !in events)
    && (repeats || NewIds({}, events))
  }

  /** At most one execution of the schedule is in flight in all such histories
      exactly when triggers are serialised, the log is not cleared and ids do not
      repeat, or nobody calls at all. */
  lemma OneAtATime(name: string, n: nat, clears: bool, repeats: bool, retention: Retention)
    ensures (forall events :: Admitted(events, retention, name, n, clears, repeats)
                              ==> |ExecutionsOf(Final(Idle(), events, retention).inFlight, name)| <= 1)
       <==> n == 0 || (n == 1 && !clears && !repeats)
  {
    if n == 0 || (n == 1 && !clears && !repeats) {
      forall events | Admitted(events, retention, name, n, clears, repeats)
        ensures |ExecutionsOf(Final(Idle(), events, retention).inFlight, name)| <= 1
      {
        SerialExecutions(events, retention, name, n);
      }
    } else {
      var events := Overlapping(name, n, clears, retention);
      assert Admitted(events, retention, name, n, clears, repeats);
    }
  }

  lemma SerialExecutions(events: seq<Event>, retention: Retention, name: string, n: nat)
    requires AllPossible(Idle(), events, retention) && Exclusive(Idle(), events, retention, name, n)
    requires n == 0 || (n == 1 && Clear !in events && NewIds({}, events))
    ensures |ExecutionsOf(Final(Idle(), events, retention).inFlight, name)| <= 1
  {
    if n == 0 {
      assert ExecutionsOf(Idle().inFlight, name) == {};
      NoCallers(Idle(), events, retention, name);
    } else {
      assert RunningOf(Idle().records, name) == {} && PastCheck(Idle().callers, name) == {};
      ExecutionBound(Idle(), events, retention, name, 1);
    }
  }

  /** A history with two or more executions at once: concurrent callers, a clear
      or a repeated id. */
  lemma Overlapping(name: string, n: nat, clears: bool, retention: Retention) returns (events: seq<Event>)
    requires n > 0
    ensures AllPossible(Idle(), events, retention) && Exclusive(Idle(), events, retention, name, n)
    ensures n > 1 || !clears ==> Clear !in events
    ensures n > 1 || clears ==> NewIds({}, events)
    ensures |ExecutionsOf(Final(Idle(), events, retention).inFlight, name)| > 1
  {
    if n > 1 {
      CallersOverlap(name, n, retention);
      events :| && NewIds({}, events) && Clear !in events && AllPossible(Idle(), events, retention)
                && Exclusive(Idle(), events, retention, name, n)
                && |ExecutionsOf(Final(Idle(), events, retention).inFlight, name)| == n;
    } else if clears {
      ClearedOverlap(name, retention);
      events := Call(0, name, "a") + ([Clear] + (Call(1, name, "b") + []));
    } else {
      RepeatedOverlap(name, retention);
      events := Call(0, name, "a") + (Call(1, name, "a") + (Call(2, name, "b") + []));
    }
  }
}
