/** Schedule definitions: defaults, validation, and what makes one fire. */
module Schedules {
  import opened Lex

  /** The schedule_type texts; `Unset` is the empty one. */
  datatype Kind = Unset | Cron | Rate | Once | OtherKind

  datatype TargetKind = Http | Faktory | OtherTarget

  datatype Target = Target(kind: TargetKind, url: string, httpMethod: string, queue: string, jobType: string,
                           instanceName: string, payload: string)

  datatype Schedule = Schedule(
    name: string, description: string, kind: Kind, cron: string, timezone: string, runAt: string,
    startsAt: string, rateInterval: int, rateUnit: string, completedAt: Option<int>, paused: bool,
    timeout: int, allowConcurrent: bool, target: Target)

  type ScheduleMap = map<string, Schedule>

  datatype FaktoryInstance = FaktoryInstance(name: string, url: string)

  /** The libraries the engine asks: time zones, local times, cron expressions. */
  datatype Libraries = Libraries(
    zoneExists: string -> bool, localTime: (string, string) -> Option<int>, cronParses: string -> bool)

  const DEFAULT_TIMEOUT := 30_000_000_000

  function NormalizeTarget(t: Target): Target {
    t.(httpMethod := if t.httpMethod == "" then "POST" else t.httpMethod,
       queue := if t.kind == Faktory && t.queue == "" then "default" else t.queue)
  }

  /** `NormalizeSchedule`; the two display times it clears are not modelled. */
  function Normalize(s: Schedule): Schedule {
    s.(kind := if s.kind == Unset then Cron else s.kind,
       timezone := if s.timezone == "" then "UTC" else s.timezone,
       timeout := if s.timeout == 0 then DEFAULT_TIMEOUT else s.timeout,
       target := NormalizeTarget(s.target))
  }

  predicate Normalized(s: Schedule) {
    Normalize(s) == s
  }

  lemma NormalizeTwice(s: Schedule)
    ensures Normalized(Normalize(s))
  {
  }

  /** The defaults, and that nothing else changes. */
  lemma DefaultsAre(s: Schedule)
    ensures var n := Normalize(s);
      && n.kind == (if s.kind == Unset then Cron else s.kind)
      && n.timezone == (if s.timezone == "" then "UTC" else s.timezone)
      && n.timeout == (if s.timeout == 0 then 30_000_000_000 else s.timeout)
      && n.target.httpMethod == (if s.target.httpMethod == "" then "POST" else s.target.httpMethod)
      && n.target.queue == (if s.target.kind == Faktory && s.target.queue == "" then "default" else s.target.queue)
      && n.target.(httpMethod := s.target.httpMethod, queue := s.target.queue) == s.target
      && n.(kind := s.kind, timezone := s.timezone, timeout := s.timeout, target := s.target) == s
  {
  }

  // -------------------------------------------------------------- validation

  predicate NameChar(c: char) {
    'A' <= c <= 'Z' || 'a' <= c <= 'z' || '0' <= c <= '9' || c == '.' || c == '_' || c == '-'
  }

  /** Letters, digits, dots, underscores and dashes, and no two dots in a row. */
  predicate NameAccepted(name: string) {
    && name != ""
    && (forall i :: 0 <= i < |name| ==> NameChar(name[i]))
    && (forall i :: 0 < i < |name| ==> name[i] != '.' || name[i - 1] != '.')
  }

  /** Accepted names suit the running index of the run store. */
  lemma AcceptedNameHasNoNul(name: string)
    requires NameAccepted(name)
    ensures '\0' !in name && NulFree(name)
  {
  }

  lemma NameExamples()
    ensures NameAccepted("Az.09_b-c") && NameAccepted("a.b.c") && NameAccepted(".")
    ensures !NameAccepted("") && !NameAccepted("a..b") && !NameAccepted("a b") && !NameAccepted("a/b")
    ensures !NameAccepted("a\0") && !NameAccepted("\U{E9}")
  {
    assert "a..b"[1] == '.' && "a..b"[2] == '.';
    assert "a b"[1] == ' ' && "a/b"[1] == '/' && "a\0"[1] == '\0' && "\U{E9}"[0] == '\U{E9}';
  }

  predicate InstancesAccepted(instances: seq<FaktoryInstance>) {
    && (forall i :: 0 <= i < |instances| ==> instances[i].name != "" && instances[i].url != "")
    && (forall i, j :: 0 <= i < j < |instances| ==> instances[i].name != instances[j].name)
  }

  predicate TimingAccepted(lib: Libraries, s: Schedule) {
    if s.kind == Once then s.runAt != "" && lib.localTime(s.runAt, s.timezone).Some?
    else if s.kind == Rate then
      && s.startsAt != "" && lib.localTime(s.startsAt, s.timezone).Some?
      && s.rateInterval > 0 && s.rateUnit in {"minutes", "hours", "days"}
    else s.kind == Cron && s.cron != ""
  }

  predicate TargetAccepted(t: Target, instances: seq<FaktoryInstance>) {
    if t.kind == Http then t.url != ""
    else t.kind == Faktory && t.instanceName != "" && t.jobType != ""
         && exists i :: 0 <= i < |instances| && instances[i].name == t.instanceName
  }

  function CronSpec(s: Schedule): string {
    if s.timezone != "" then "CRON_TZ=" + s.timezone + " " + s.cron else s.cron
  }

  /** `validateSchedule`. */
  predicate Accepted(lib: Libraries, instances: seq<FaktoryInstance>, raw: Schedule) {
    var s := Normalize(raw);
    && InstancesAccepted(instances) && NameAccepted(s.name) && lib.zoneExists(s.timezone)
    && TimingAccepted(lib, s) && TargetAccepted(s.target, instances)
    && (s.kind == Cron ==> lib.cronParses(CronSpec(s)))
  }

  /** `cronSchedule` builds a cron schedule without an error. */
  predicate Schedulable(lib: Libraries, s: Schedule) {
    if s.kind == Cron then lib.cronParses(CronSpec(s))
    else if s.kind == Rate then lib.localTime(s.startsAt, s.timezone).Some?
    else s.kind == Once && lib.localTime(s.runAt, s.timezone).Some?
  }

  /** What the engine relies on in the validation it is given. */
  datatype Checks = Checks(accepts: Schedule -> bool, schedules: Schedule -> bool) {
    ghost predicate Reliable() {
      && (forall s {:trigger Normalize(s)} :: accepts(s) ==>
            s.name != "" && accepts(Normalize(s)) && schedules(Normalize(s)))
      && (forall s {:trigger Normalize(s)} :: accepts(Normalize(s)) ==> accepts(s))
      && (forall s {:trigger Toggled(s)} :: accepts(s) ==> accepts(Toggled(s)))
      && (forall s, at {:trigger Marked(s, at)} :: accepts(s) ==> accepts(Marked(s, at)))
    }
  }

  function StandardChecks(lib: Libraries, instances: seq<FaktoryInstance>): Checks {
    Checks((s: Schedule) => Accepted(lib, instances, s), (s: Schedule) => Schedulable(lib, s))
  }

  /** A validated schedule never fails to become a cron schedule, and neither
      normalising, pausing nor completing it changes the verdict. */
  lemma StandardChecksReliable(lib: Libraries, instances: seq<FaktoryInstance>)
    ensures StandardChecks(lib, instances).Reliable()
  {
    forall s | Accepted(lib, instances, s)
      ensures s.name != "" && Accepted(lib, instances, Normalize(s)) && Schedulable(lib, Normalize(s))
    {
      NormalizeTwice(s);
    }
    forall s | Accepted(lib, instances, Normalize(s)) ensures Accepted(lib, instances, s) {
      NormalizeTwice(s);
    }
    forall s | Accepted(lib, instances, s) ensures Accepted(lib, instances, Toggled(s)) {
      SameVerdict(lib, instances, s, Toggled(s));
    }
    forall s, at | Accepted(lib, instances, s) ensures Accepted(lib, instances, Marked(s, at)) {
      SameVerdict(lib, instances, s, Marked(s, at));
    }
  }

  lemma SameVerdict(lib: Libraries, instances: seq<FaktoryInstance>, a: Schedule, b: Schedule)
    requires a.(paused := b.paused, completedAt := b.completedAt) == b
    ensures Accepted(lib, instances, a) == Accepted(lib, instances, b)
  {
    assert TimingAccepted(lib, Normalize(a)) == TimingAccepted(lib, Normalize(b));
  }

  // ------------------------------------------------------------------ firing

  /** Neither paused nor a completed one-time schedule. */
  predicate Active(s: Schedule) {
    !s.paused && !(s.kind == Once && s.completedAt.Some?)
  }

  function Toggled(s: Schedule): Schedule {
    s.(paused := !s.paused)
  }

  function Marked(s: Schedule, at: Option<int>): Schedule {
    s.(completedAt := at)
  }

  /** A one-time schedule that has not fired. */
  predicate Unfinished(s: Schedule) {
    s.kind == Once && s.completedAt.None?
  }

  /** An edit that leaves the firing time of a one-time schedule alone. */
  predicate SameOccasion(edited: Schedule, old': Schedule) {
    edited.kind == Once && old'.kind == Once && edited.runAt == old'.runAt && edited.timezone == old'.timezone
  }

  /** Such an edit keeps the completion mark. */
  function Carried(edited: Schedule, old': Schedule): Schedule {
    if SameOccasion(edited, old') && edited.completedAt.None? then Marked(edited, old'.completedAt) else edited
  }

  /** The edit makes a schedule due that was not: it names another occasion and
      brings no completion mark. */
  predicate Rearms(raw: Schedule, old': Schedule) {
    && Normalize(raw).kind == Once && raw.completedAt.None?
    && !Unfinished(old') && !SameOccasion(Normalize(raw), old')
  }

  /** The edited schedule in the table it is saved into. */
  function Incoming(table: ScheduleMap, original: string, s: Schedule): Schedule {
    if original in table then Carried(Normalize(s), table[original]) else Normalize(s)
  }

  /** The edited schedule may take its place: the original exists, and the new
      name is free or the original's own. An empty original means a new one. */
  predicate Fits(table: ScheduleMap, original: string, name: string) {
    if original == "" then name !in table
    else original in table && (name == original || name !in table)
  }

  /** The table after `original` is replaced; an empty original replaces nothing. */
  function Replaced(table: ScheduleMap, original: string, s: Schedule): ScheduleMap {
    (if original == "" then table else table - {original})[s.name := s]
  }

  /** What becomes of the completion mark when a finished one-time schedule is
      edited: it survives exactly when the edit carries a mark of its own or
      keeps the time and the zone. */
  lemma MarkSurvives(table: ScheduleMap, original: string, raw: Schedule)
    requires original in table && table[original].kind == Once && table[original].completedAt.Some?
    requires Normalize(raw).kind == Once
    ensures Incoming(table, original, raw).completedAt.Some?
       <==> || raw.completedAt.Some?
            || (raw.runAt == table[original].runAt && Normalize(raw).timezone == table[original].timezone)
    ensures Unfinished(Incoming(table, original, raw)) <==> Rearms(raw, table[original])
  {
  }

  /** No field of the edit is left to its default. */
  predicate Filled(raw: Schedule) {
    && raw.kind != Unset && raw.timezone != "" && raw.timeout != 0 && raw.target.httpMethod != ""
    && (raw.target.kind == Faktory ==> raw.target.queue != "")
  }

  /** The edit is stored: field by field as it was made, when none is left to its
      default. The completion mark is its own, or the old one when both are
      one-time for the same time and zone and the edit brings none. No other
      schedule changes, and a renamed one leaves its old name. */
  ghost predicate EditStored(table: ScheduleMap, original: string, raw: Schedule, saved: ScheduleMap) {
    && raw.name in saved
    && (Filled(raw) ==>
          && saved[raw.name].(completedAt := raw.completedAt) == raw
          && saved[raw.name].completedAt
             == if && original in table && raw.kind == Once && table[original].kind == Once
                   && raw.runAt == table[original].runAt && raw.timezone == table[original].timezone
                   && raw.completedAt == None
                then table[original].completedAt else raw.completedAt)
    && (original != raw.name ==> original !in saved)
    && (forall n :: n != original && n != raw.name ==>
          (n in saved <==> n in table) && (n in saved ==> saved[n] == table[n]))
  }

  lemma SavedIsEdit(table: ScheduleMap, original: string, raw: Schedule)
    requires "" !in table && raw.name != ""
    ensures EditStored(table, original, raw, Replaced(table, original, Incoming(table, original, raw)))
  {
  }

  /** The table a list of definitions makes; the last of a name wins. */
  function TableOf(list: seq<Schedule>): ScheduleMap {
    if list == [] then map[] else
      TableOf(list[..|list| - 1])[list[|list| - 1].name := Normalize(list[|list| - 1])]
  }

  lemma TableOfNext(list: seq<Schedule>, i: nat)
    requires i < |list|
    ensures TableOf(list[..i + 1]) == TableOf(list[..i])[list[i].name := Normalize(list[i])]
  {
    assert list[..i + 1][..i] == list[..i];
  }

  /** Every schedule of the table comes from the list. */
  lemma {:induction false} TableNames(list: seq<Schedule>)
    ensures forall name :: name in TableOf(list) ==>
              exists i :: 0 <= i < |list| && list[i].name == name && TableOf(list)[name] == Normalize(list[i])
  {
    if list != [] {
      var rest := list[..|list| - 1];
      TableNames(rest);
      assert list == rest + [list[|rest|]];
    }
  }

  lemma {:induction false} TableOfOwn(list: seq<Schedule>, table: ScheduleMap)
    requires forall i :: 0 <= i < |list| ==>
               list[i].name in table && table[list[i].name] == list[i] && Normalized(list[i])
    ensures forall name :: name in TableOf(list) <==> exists i :: 0 <= i < |list| && list[i].name == name
    ensures forall name :: name in TableOf(list) ==> name in table && TableOf(list)[name] == table[name]
  {
    if list != [] {
      var rest := list[..|list| - 1];
      TableOfOwn(rest, table);
      assert list == rest + [list[|rest|]];
    }
  }
}
