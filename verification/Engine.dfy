/** The engine's schedule table, kept in step with the persisted schedules and
    with the cron's entries. */
module Engine {
  import opened Lex
  import opened Schedules

  type EntryIDs = map<string, nat>
  type CronEntries = map<nat, Schedule>

  /** The schedules bucket. `ok` says whether the disk lets a write through. */
  class ScheduleStore {
    var saved: ScheduleMap

    constructor (saved: ScheduleMap)
      ensures this.saved == saved
    {
      this.saved := saved;
    }

    method Save(s: Schedule, ok: bool)
      modifies this
      ensures saved == if ok then old(saved)[s.name := Normalize(s)] else old(saved)
    {
      if ok {
        saved := saved[s.name := Normalize(s)];
      }
    }

    method Delete(name: string, ok: bool)
      modifies this
      ensures saved == if ok then old(saved) - {name} else old(saved)
    {
      if ok {
        saved := saved - {name};
      }
    }
  }

  /** Which of the calls `SaveSchedule` may make would succeed, in program order. */
  datatype Outcomes = Outcomes(
    save: bool, deleteOld: bool, addEntry: bool, undoDelete: bool, undoSave: bool, undoAddEntry: bool)
  {
    predicate DiskUndoWorks() {
      undoDelete && undoSave
    }
  }

  /** What became of a trigger: no such schedule, no answer to the running check,
      no run saved, or a run skipped or started. */
  datatype Attempt = NotFound | CheckFailed | SaveFailed | SkippedRun | StartedRun

  // -------------------------------------------------------- table and entries

  ghost predicate TableOk(checks: Checks, table: ScheduleMap) {
    forall name :: name in table ==> table[name].name == name && Normalized(table[name]) && checks.accepts(table[name])
  }

  /** The names that must have an entry. */
  function LiveNames(table: ScheduleMap): set<string> {
    set name | name in table && Active(table[name])
  }

  /** Entry ids and the cron's entries are inverse to each other. */
  ghost predicate Paired(ids: EntryIDs, entries: CronEntries, next: nat) {
    && (forall name :: name in ids ==> ids[name] in entries && entries[ids[name]].name == name)
    && (forall id :: id in entries ==> id < next && entries[id].name in ids && ids[entries[id].name] == id)
  }

  /** A name has an entry exactly when its schedule is active, and the entry
      captured the current schedule; `except` may be out of date. */
  ghost predicate Current(table: ScheduleMap, ids: EntryIDs, entries: CronEntries, except: set<string>)
    requires forall name :: name in ids ==> ids[name] in entries
  {
    && (forall name :: name in ids && name !in except ==> name in LiveNames(table) && entries[ids[name]] == table[name])
    && (forall name :: name in LiveNames(table) && name !in except ==> name in ids)
  }

  /** Changing one schedule puts only its own entry out of date. */
  lemma OpenSlot(table: ScheduleMap, ids: EntryIDs, entries: CronEntries, s: Schedule)
    requires forall name :: name in ids ==> ids[name] in entries
    requires Current(table, ids, entries, {})
    ensures Current(table[s.name := s], ids, entries, {s.name})
  {
  }

  /** Installing the schedule an entry was made for brings it up to date. */
  lemma CloseSlot(table: ScheduleMap, ids: EntryIDs, entries: CronEntries, s: Schedule)
    requires forall name :: name in ids ==> ids[name] in entries
    requires Current(table, ids, entries, {s.name})
    requires s.name in ids <==> Active(s)
    requires s.name in ids ==> entries[ids[s.name]] == s
    ensures Current(table[s.name := s], ids, entries, {})
  {
    var table' := table[s.name := s];
    forall name | name in LiveNames(table') ensures name in ids {
      if name != s.name { assert name in LiveNames(table); }
    }
    forall name | name in ids ensures name in LiveNames(table') && entries[ids[name]] == table'[name] {
      if name != s.name { assert name in LiveNames(table); }
    }
  }

  lemma CloseOwnSlot(table: ScheduleMap, ids: EntryIDs, entries: CronEntries, s: Schedule)
    requires forall name :: name in ids ==> ids[name] in entries
    requires Current(table, ids, entries, {s.name}) && s.name in table && table[s.name] == s
    requires s.name in ids <==> Active(s)
    requires s.name in ids ==> entries[ids[s.name]] == s
    ensures Current(table, ids, entries, {})
  {
    CloseSlot(table, ids, entries, s);
    assert table[s.name := s] == table;
  }

  lemma PutThenDrop(table: ScheduleMap, s: Schedule)
    ensures table[s.name := s] - {s.name} == table - {s.name}
  {
  }

  lemma DropAbsent(table: ScheduleMap, name: string)
    requires name !in table
    ensures table - {name} == table
  {
  }

  lemma DropSlot(table: ScheduleMap, ids: EntryIDs, entries: CronEntries, name: string)
    requires forall name :: name in ids ==> ids[name] in entries
    requires Current(table, ids, entries, {name}) && name !in ids
    ensures Current(table - {name}, ids, entries, {})
  {
    forall n | n in LiveNames(table - {name}) ensures n in ids { assert n in LiveNames(table); }
  }

  /** An edited schedule is as well-formed as any. */
  lemma IncomingOk(checks: Checks, table: ScheduleMap, original: string, raw: Schedule)
    requires checks.Reliable() && TableOk(checks, table) && checks.accepts(Normalize(raw))
    ensures var s := Incoming(table, original, raw); s.name == raw.name && checks.accepts(s) && Normalized(s)
    ensures checks.accepts(raw)
  {
    NormalizeTwice(raw);
    var s := Normalize(raw);
    if original in table { assert checks.accepts(Marked(s, table[original].completedAt)); }
  }

  /** So is a stored schedule whose pause or completion mark changes. */
  lemma EditOk(checks: Checks, table: ScheduleMap, name: string, s: Schedule)
    requires checks.Reliable() && TableOk(checks, table) && name in table
    requires s == Toggled(table[name]) || s == Marked(table[name], s.completedAt)
    ensures s.name == name && checks.accepts(s) && Normalized(s)
  {
  }

  /** The schedule an edit starts from; a new schedule starts from none. */
  function Lookup(table: ScheduleMap, name: string): Option<Schedule> {
    if name in table then Some(table[name]) else None
  }

  /** The saved schedules after `SaveSchedule` has taken the new schedule back
      out and put the original back. */
  function Undone(saved: ScheduleMap, name: string, original: Option<Schedule>): ScheduleMap {
    match original
    case None => saved - {name}
    case Some(s) => (saved - {name})[s.name := s]
  }

  /** The saved schedules hold the original as memory has it, and the new name is
      free or the original's own. */
  predicate Holds(saved: ScheduleMap, name: string, original: Option<Schedule>) {
    match original
    case None => name !in saved
    case Some(s) => s.name in saved && saved[s.name] == s && (name == s.name || name !in saved)
  }

  /** The undo steps restore the saved schedules exactly when those held what
      memory expected. */
  lemma UndoneExactly(saved: ScheduleMap, name: string, original: Option<Schedule>)
    ensures Undone(saved, name, original) == saved <==> Holds(saved, name, original)
  {
    match original
    case None => if name !in saved { DropAbsent(saved, name); }
    case Some(s) =>
      if Holds(saved, name, original) {
        assert forall n :: n in Undone(saved, name, original) <==> n in saved;
      }
  }

  /** The saved schedules hold what memory expects when they are those of memory. */
  lemma SyncedHolds(table: ScheduleMap, original: string, name: string)
    requires Fits(table, original, name) && "" !in table && forall n :: n in table ==> table[n].name == n
    ensures Holds(table, name, Lookup(table, original))
  {
  }

  /** Undoing a completed replacement is undoing one that stopped half-way. */
  lemma UndoneReplaced(saved: ScheduleMap, original: string, s: Schedule, old': Option<Schedule>)
    requires if original == "" then old' == None else old'.Some? && old'.value.name == original
    ensures Undone(Replaced(saved, original, s), s.name, old') == Undone(saved, s.name, old')
  {
  }

  /** The schedule under edit is the original's, or none when it is new. */
  predicate Edits(original: string, oldSchedule: Option<Schedule>) {
    if original == "" then oldSchedule == None
    else oldSchedule.Some? && oldSchedule.value.name == original && Normalized(oldSchedule.value)
  }

  lemma OriginalOk(checks: Checks, table: ScheduleMap, original: string)
    requires checks.Reliable() && TableOk(checks, table) && (original == "" || original in table)
    ensures Edits(original, Lookup(table, original))
    ensures original in table ==> checks.accepts(table[original])
    ensures "" !in table
  {
    assert forall name :: name in table ==> table[name].name != "";
  }

  /** The table without the original and without the new name. */
  function Cleared(table: ScheduleMap, original: string, name: string): ScheduleMap {
    if original != "" && original != name then table - {original} - {name} else table - {name}
  }

  lemma ClearedFacts(table: ScheduleMap, original: string, s: Schedule)
    requires Fits(table, original, s.name)
    ensures var cleared := Cleared(table, original, s.name);
      && cleared[s.name := s] == Replaced(table, original, s)
      && cleared - {s.name} == cleared
      && (original == "" ==> cleared == table)
      && (original != "" ==> cleared[original := table[original]] == table)
  {
  }

  class Engine {
    const checks: Checks
    const store: ScheduleStore

    var schedules: ScheduleMap
    var entryIDs: EntryIDs
    /** The cron's live entries, each with the schedule its job captured. */
    var cronEntries: CronEntries
    var nextEntry: nat

    ghost predicate Valid()
      reads this
    {
      && checks.Reliable()
      && TableOk(checks, schedules)
      && Paired(entryIDs, cronEntries, nextEntry)
      && Current(schedules, entryIDs, cronEntries, {})
    }

    /** Memory and disk agree. */
    ghost predicate Synced()
      reads this, store
    {
      store.saved == schedules
    }

    constructor Empty(checks: Checks, store: ScheduleStore)
      requires checks.Reliable()
      ensures Valid() && schedules == map[]
      ensures this.checks == checks && this.store == store
    {
      this.checks, this.store := checks, store;
      schedules, entryIDs, cronEntries, nextEntry := map[], map[], map[], 0;
    }

    // ------------------------------------------------------------ cron entries

    method RemoveEntry(name: string)
      requires Paired(entryIDs, cronEntries, nextEntry)
      modifies this`entryIDs, this`cronEntries
      ensures Paired(entryIDs, cronEntries, nextEntry)
      ensures entryIDs == old(entryIDs) - {name}
      ensures forall n :: n in entryIDs ==> cronEntries[entryIDs[n]] == old(cronEntries[entryIDs[n]])
    {
      if name in entryIDs {
        cronEntries := cronEntries - {entryIDs[name]};
        entryIDs := entryIDs - {name};
      }
    }

    method RemoveSchedule(name: string)
      requires Valid()
      modifies this`schedules, this`entryIDs, this`cronEntries
      ensures Valid() && schedules == old(schedules) - {name}
    {
      RemoveEntry(name);
      schedules := schedules - {name};
      assert LiveNames(schedules) == LiveNames(old(schedules)) - {name};
    }

    /** `registerScheduleLocked`: replace the name's entry by one for `s`. The
        only error left for a validated schedule is the cron refusing the job. */
    method RegisterEntry(s: Schedule, addEntry: bool) returns (ok: bool)
      requires checks.Reliable() && checks.accepts(s) && Normalized(s)
      requires Paired(entryIDs, cronEntries, nextEntry) && Current(schedules, entryIDs, cronEntries, {s.name})
      modifies this`entryIDs, this`cronEntries, this`nextEntry
      ensures ok == (Active(s) ==> addEntry)
      ensures Paired(entryIDs, cronEntries, nextEntry) && Current(schedules, entryIDs, cronEntries, {s.name})
      ensures s.name in entryIDs <==> Active(s) && addEntry
      ensures s.name in entryIDs ==> cronEntries[entryIDs[s.name]] == s
    {
      RemoveEntry(s.name);
      if s.paused {
        return true;
      }
      if s.kind == Once && s.completedAt.Some? {
        return true;
      }
      assert checks.schedules(s); // building the cron schedule does not fail
      if !addEntry {
        return false;
      }
      cronEntries := cronEntries[nextEntry := s];
      entryIDs := entryIDs[s.name := nextEntry];
      nextEntry := nextEntry + 1;
      return true;
    }

    method RegisterSchedule(raw: Schedule, addEntry: bool) returns (ok: bool)
      requires Valid()
      modifies this`schedules, this`entryIDs, this`cronEntries, this`nextEntry
      ensures Valid()
      ensures ok == (checks.accepts(raw) && (Active(Normalize(raw)) ==> addEntry))
      ensures ok ==> schedules == old(schedules)[raw.name := Normalize(raw)]
      ensures !ok ==> schedules == if checks.accepts(raw) then old(schedules) - {raw.name} else old(schedules)
    {
      var s := Normalize(raw);
      if !checks.accepts(s) {
        return false;
      }
      NormalizeTwice(raw);
      OpenSlot(schedules, entryIDs, cronEntries, s);
      schedules := schedules[s.name := s];
      ok := RegisterEntry(s, addEntry);
      if ok {
        CloseOwnSlot(schedules, entryIDs, cronEntries, s);
      } else {
        DropSlot(schedules, entryIDs, cronEntries, s.name);
        PutThenDrop(old(schedules), s);
        schedules := schedules - {s.name};
      }
    }

    /** The schedules loaded after `i` rounds of the registration loop. */
    ghost predicate Loaded(list: seq<Schedule>, i: nat, refused: set<string>)
      requires i <= |list|
      reads this
    {
      Valid() && Loadable(checks, list[..i], refused) && schedules == TableOf(list[..i])
    }

    method RegisterNext(list: seq<Schedule>, i: nat, refused: set<string>) returns (ok: bool)
      requires i < |list| && Loaded(list, i, refused)
      modifies this`schedules, this`entryIDs, this`cronEntries, this`nextEntry
      ensures Valid()
      ensures if ok then Loaded(list, i + 1, refused) else !Loads(checks, list[i], refused)
    {
      TableOfNext(list, i);
      LoadableNext(checks, list, i, refused);
      ok := RegisterSchedule(list[i], list[i].name !in refused);
    }

    /** The registration loop of `NewEngine`. */
    method RegisterAll(list: seq<Schedule>, refused: set<string>) returns (ok: bool)
      requires Valid() && schedules == map[]
      modifies this`schedules, this`entryIDs, this`cronEntries, this`nextEntry
      ensures Valid()
      ensures if ok then Loaded(list, |list|, refused) else !Loadable(checks, list, refused)
    {
      for i := 0 to |list|
        invariant Loaded(list, i, refused)
      {
        ok := RegisterNext(list, i, refused);
        if !ok {
          return;
        }
      }
      return true;
    }

    // ------------------------------------------------------------- operations

    /** The store half of `SaveSchedule`: write the new schedule, drop the old
        name, and put things back when that fails. */
    method WriteReplacement(original: string, s: Schedule, oldSchedule: Option<Schedule>, o: Outcomes)
      returns (ok: bool)
      requires Normalized(s) && Edits(original, oldSchedule)
      modifies store
      ensures ok <==> o.save && (original != "" && original != s.name ==> o.deleteOld)
      ensures ok ==> store.saved == Replaced(old(store.saved), original, s)
      ensures !o.save ==> unchanged(store)
      ensures !ok && o.save && o.DiskUndoWorks() ==> store.saved == Undone(old(store.saved), s.name, oldSchedule)
    {
      if !o.save {
        return false;
      }
      store.Save(s, true);
      if original != "" && original != s.name {
        store.Delete(original, o.deleteOld);
        if !o.deleteOld {
          store.Delete(s.name, o.undoDelete);
          PutThenDrop(old(store.saved), s);
          store.Save(oldSchedule.value, o.undoSave);
          return false;
        }
      }
      return true;
    }

    /** The memory half of `SaveSchedule`: swap the schedules, and on failure
        take the new one back out of memory and store and restore the old one. */
    method SwapSchedule(original: string, s: Schedule, o: Outcomes) returns (ok: bool)
      requires Valid() && checks.accepts(s) && Normalized(s) && Fits(schedules, original, s.name)
      modifies this`schedules, this`entryIDs, this`cronEntries, this`nextEntry, store
      ensures Valid()
      ensures ok <==> (Active(s) ==> o.addEntry)
      ensures ok ==> schedules == Replaced(old(schedules), original, s) && unchanged(store)
      ensures !ok && o.undoAddEntry ==> schedules == old(schedules)
      ensures !ok && o.DiskUndoWorks() ==>
                store.saved == Undone(old(store.saved), s.name, Lookup(old(schedules), original))
    {
      var oldSchedule := Lookup(schedules, original);
      OriginalOk(checks, schedules, original);
      ClearedFacts(schedules, original, s);
      Clear(original, s.name);
      ok := RegisterSchedule(s, o.addEntry);
      if !ok {
        PutBack(s.name, oldSchedule, o);
      }
    }

    method Clear(original: string, name: string)
      requires Valid()
      modifies this`schedules, this`entryIDs, this`cronEntries
      ensures Valid() && schedules == Cleared(old(schedules), original, name)
    {
      if original != "" && original != name {
        RemoveSchedule(original);
      }
      RemoveSchedule(name);
    }

    /** What `SaveSchedule` does when the new schedule could not be registered. */
    method PutBack(name: string, oldSchedule: Option<Schedule>, o: Outcomes)
      requires Valid() && name !in schedules
      requires oldSchedule.Some? ==> checks.accepts(oldSchedule.value) && Normalized(oldSchedule.value)
      modifies this`schedules, this`entryIDs, this`cronEntries, this`nextEntry, store
      ensures Valid()
      ensures oldSchedule.None? ==> schedules == old(schedules)
      ensures oldSchedule.Some? && o.undoAddEntry ==>
                schedules == old(schedules)[oldSchedule.value.name := oldSchedule.value]
      ensures o.DiskUndoWorks() ==> store.saved == Undone(old(store.saved), name, oldSchedule)
    {
      DropAbsent(schedules, name);
      RemoveSchedule(name);
      store.Delete(name, o.undoDelete);
      if oldSchedule.Some? {
        store.Save(oldSchedule.value, o.undoSave);
        var restored := RegisterSchedule(oldSchedule.value, o.undoAddEntry);
        assert o.undoAddEntry ==> restored;
      }
    }

    /** The checks `SaveSchedule` makes before it touches anything. */
    method Admits(original: string, raw: Schedule) returns (ok: bool)
      requires Valid()
      ensures ok <==> checks.accepts(raw) && Fits(schedules, original, raw.name)
    {
      if !checks.accepts(Normalize(raw)) {
        return false;
      }
      IncomingOk(checks, schedules, original, raw);
      if original != "" && original !in schedules {
        return false;
      }
      if original != raw.name && raw.name in schedules {
        return false;
      }
      return true;
    }

    /** The steps of `SaveSchedule`, against the table after the edit. */
    method ReplaceSchedule(original: string, raw: Schedule, o: Outcomes) returns (ok: bool)
      requires Valid()
      modifies this`schedules, this`entryIDs, this`cronEntries, this`nextEntry, store
      ensures Valid()
      ensures ok <==> && checks.accepts(raw) && Fits(old(schedules), original, raw.name) && o.save
                      && (original != "" && original != raw.name ==> o.deleteOld)
                      && (Active(Incoming(old(schedules), original, raw)) ==> o.addEntry)
      ensures ok ==> var s := Incoming(old(schedules), original, raw);
                     && schedules == Replaced(old(schedules), original, s)
                     && store.saved == Replaced(old(store.saved), original, s)
      ensures !(checks.accepts(raw) && Fits(old(schedules), original, raw.name) && o.save) ==>
                unchanged(this) && unchanged(store)
      ensures !ok && o.undoAddEntry ==> schedules == old(schedules)
      ensures !ok && checks.accepts(raw) && Fits(old(schedules), original, raw.name) && o.save && o.DiskUndoWorks() ==>
                store.saved == Undone(old(store.saved), raw.name, Lookup(old(schedules), original))
    {
      ok := Admits(original, raw);
      if !ok {
        return;
      }
      assert checks.accepts(Normalize(raw));
      IncomingOk(checks, schedules, original, raw);
      OriginalOk(checks, schedules, original);
      var s := Incoming(schedules, original, raw);
      var oldSchedule := Lookup(schedules, original);
      UndoneReplaced(store.saved, original, s, oldSchedule);
      ok := WriteReplacement(original, s, oldSchedule, o);
      if ok {
        ok := SwapSchedule(original, s, o);
      }
    }

    /** `SaveSchedule`: all or nothing. On success the edit is stored as it was
        made, but for the defaults of empty fields and the completion mark, and
        nothing else changes. A failure leaves the table as it was when the
        original's entry can be put back, whatever the disk holds. It leaves the
        disk as it was exactly when the disk held what memory expected. */
    method SaveSchedule(original: string, raw: Schedule, o: Outcomes) returns (ok: bool)
      requires Valid()
      modifies this`schedules, this`entryIDs, this`cronEntries, this`nextEntry, store
      ensures Valid()
      ensures ok <==> && checks.accepts(raw) && o.save
                      && (original != "" ==> original in old(schedules))
                      && (original != raw.name ==> raw.name !in old(schedules))
                      && (original != "" && original != raw.name ==> o.deleteOld)
                      && (Active(Incoming(old(schedules), original, raw)) ==> o.addEntry)
      ensures ok ==> var s := Incoming(old(schedules), original, raw);
                     && schedules == Replaced(old(schedules), original, s)
                     && store.saved == Replaced(old(store.saved), original, s)
      ensures ok ==> raw.name in schedules && raw.name in store.saved && store.saved[raw.name] == schedules[raw.name]
      ensures ok ==> EditStored(old(schedules), original, raw, schedules)
      ensures !(checks.accepts(raw) && Fits(old(schedules), original, raw.name) && o.save) ==>
                unchanged(this) && unchanged(store)
      ensures !ok && o.undoAddEntry ==> schedules == old(schedules)
      ensures !ok && checks.accepts(raw) && Fits(old(schedules), original, raw.name) && o.save && o.DiskUndoWorks() ==>
                var was := Lookup(old(schedules), original);
                && store.saved == Undone(old(store.saved), raw.name, was)
                && (store.saved == old(store.saved) <==> Holds(old(store.saved), raw.name, was))
      ensures !ok && old(Synced()) && o.DiskUndoWorks() ==> store.saved == old(store.saved)
    {
      ghost var before, saved := schedules, store.saved;
      OriginalOk(checks, schedules, "");
      if Fits(before, original, raw.name) { SyncedHolds(before, original, raw.name); }
      ok := ReplaceSchedule(original, raw, o);
      if ok {
        SavedIsEdit(before, original, raw);
        assert raw.name == Incoming(before, original, raw).name;
      } else {
        UndoneExactly(saved, raw.name, Lookup(before, original));
      }
    }

    /** `DeleteSchedule`: memory lets go of the schedule even when the disk does
        not, so the two still agree exactly when the disk write succeeded. */
    method DeleteSchedule(name: string, write: bool) returns (ok: bool)
      requires Valid()
      modifies this, store
      ensures Valid()
      ensures ok <==> name in old(schedules) && write
      ensures schedules == old(schedules) - {name}
      ensures store.saved == if ok then old(store.saved) - {name} else old(store.saved)
      ensures old(Synced()) ==> (Synced() <==> name !in old(schedules) || write)
    {
      if name !in schedules {
        return false;
      }
      RemoveSchedule(name);
      store.Delete(name, write);
      return write;
    }

    /** Put `s` in the table once its entry is right. */
    method Install(s: Schedule)
      requires checks.Reliable() && TableOk(checks, schedules) && checks.accepts(s) && Normalized(s)
      requires Paired(entryIDs, cronEntries, nextEntry) && Current(schedules, entryIDs, cronEntries, {s.name})
      requires s.name in entryIDs <==> Active(s)
      requires s.name in entryIDs ==> cronEntries[entryIDs[s.name]] == s
      modifies this`schedules
      ensures Valid() && schedules == old(schedules)[s.name := s]
    {
      CloseSlot(schedules, entryIDs, cronEntries, s);
      schedules := schedules[s.name := s];
    }

    /** The memory half of `TogglePause`. */
    method SwitchPause(s: Schedule, addEntry: bool) returns (ok: bool)
      requires Valid() && s.name in schedules && checks.accepts(s) && Normalized(s)
      requires schedules[s.name] == s.(paused := !s.paused)
      modifies this`schedules, this`entryIDs, this`cronEntries, this`nextEntry
      ensures Valid()
      ensures ok <==> (Active(s) ==> addEntry)
      ensures schedules == if ok then old(schedules)[s.name := s] else old(schedules)
    {
      ghost var before := schedules;
      ok := true;
      if s.paused {
        RemoveEntry(s.name);
      } else {
        ok := RegisterEntry(s, addEntry);
        if !ok {
          var restored := s.(paused := true);
          Install(restored);
          assert before[s.name := restored] == before;
          return;
        }
      }
      Install(s);
    }

    /** `TogglePause`. */
    method TogglePause(name: string, save: bool, addEntry: bool, undoSave: bool) returns (paused: bool, ok: bool)
      requires Valid()
      modifies this`schedules, this`entryIDs, this`cronEntries, this`nextEntry, store
      ensures Valid()
      ensures ok <==> name in old(schedules) && save && (Active(Toggled(old(schedules)[name])) ==> addEntry)
      ensures ok ==> && paused == !old(schedules)[name].paused
                     && schedules == old(schedules)[name := old(schedules)[name].(paused := paused)]
                     && store.saved == old(store.saved)[name := old(schedules)[name].(paused := paused)]
      ensures ok && paused ==> name !in entryIDs
      ensures ok && !paused ==>
                (name in entryIDs <==> !(schedules[name].kind == Once && schedules[name].completedAt.Some?))
      ensures !ok ==> schedules == old(schedules)
      ensures !save || name !in old(schedules) ==> unchanged(this) && unchanged(store)
      ensures !ok && undoSave && save && name in old(schedules) ==>
                store.saved == old(store.saved)[name := old(schedules)[name]]
      ensures !ok && undoSave && old(Synced()) ==> store.saved == old(store.saved)
    {
      if name !in schedules || !save {
        return false, false;
      }
      var s := Toggled(schedules[name]);
      EditOk(checks, schedules, name, s);
      store.Save(s, true);
      ok := SwitchPause(s, addEntry);
      paused := s.paused;
      if !ok {
        paused := true;
        store.Save(schedules[name], undoSave);
      }
    }

    /** `markOneTimeCompleted`. */
    method MarkOneTimeCompleted(name: string, now: int, save: bool) returns (ok: bool)
      requires Valid()
      modifies this`schedules, this`entryIDs, this`cronEntries, this`nextEntry, store
      ensures Valid()
      ensures ok <==> name in old(schedules) && (Unfinished(old(schedules)[name]) ==> save)
      ensures save && name in old(schedules)
              && old(schedules)[name].kind == Once && old(schedules)[name].completedAt == None ==>
                && schedules == old(schedules)[name := old(schedules)[name].(completedAt := Some(now))]
                && store.saved == old(store.saved)[name := old(schedules)[name].(completedAt := Some(now))]
                && name !in entryIDs
      ensures !(save && name in old(schedules)
                && old(schedules)[name].kind == Once && old(schedules)[name].completedAt == None) ==>
                schedules == old(schedules) && store.saved == old(store.saved)
    {
      if name !in schedules {
        return false;
      }
      if !Unfinished(schedules[name]) {
        return true;
      }
      if !save {
        return false;
      }
      var s := Marked(schedules[name], Some(now));
      EditOk(checks, schedules, name, s);
      store.Save(s, true);
      RemoveEntry(name);
      Install(s);
      return true;
    }

    /** `Trigger`, as far as schedules are concerned: `running` is the answer of
        the running check, if the store gives one; `saveRun` and `saveMark` say
        whether the run and a completion mark can be written. */
    method Trigger(name: string, scheduler: bool, running: Option<bool>, saveRun: bool, now: int, saveMark: bool)
      returns (attempt: Attempt)
      requires Valid()
      modifies this`schedules, this`entryIDs, this`cronEntries, this`nextEntry, store
      ensures Valid()
      ensures attempt.NotFound? <==> name !in old(schedules)
      ensures attempt.CheckFailed? <==> name in old(schedules) && !old(schedules)[name].allowConcurrent && running.None?
      ensures attempt.SkippedRun? <==>
                name in old(schedules) && !old(schedules)[name].allowConcurrent && running == Some(true) && saveRun
      ensures attempt.StartedRun? <==>
                name in old(schedules) && (old(schedules)[name].allowConcurrent || running == Some(false)) && saveRun
      ensures attempt.StartedRun? && scheduler && saveMark
              && old(schedules)[name].kind == Once && old(schedules)[name].completedAt == None ==>
                && schedules == old(schedules)[name := old(schedules)[name].(completedAt := Some(now))]
                && store.saved == old(store.saved)[name := old(schedules)[name].(completedAt := Some(now))]
                && name !in entryIDs
      ensures !(attempt.StartedRun? && scheduler && saveMark
                && old(schedules)[name].kind == Once && old(schedules)[name].completedAt == None) ==>
                schedules == old(schedules) && store.saved == old(store.saved)
    {
      if name !in schedules {
        return NotFound;
      }
      var s := schedules[name];
      if !s.allowConcurrent {
        if running == None {
          return CheckFailed;
        }
        if running.value {
          return if saveRun then SkippedRun else SaveFailed;
        }
      }
      if !saveRun {
        return SaveFailed;
      }
      if s.kind == Once && scheduler {
        var _ := MarkOneTimeCompleted(name, now, saveMark);
      }
      return StartedRun;
    }

    /** `TriggerManual`: a paused schedule is refused, and no schedule changes. */
    method TriggerManual(name: string, running: Option<bool>, saveRun: bool, now: int)
      returns (attempt: Option<Attempt>)
      requires Valid()
      modifies this`schedules, this`entryIDs, this`cronEntries, this`nextEntry, store
      ensures Valid() && schedules == old(schedules) && store.saved == old(store.saved)
      ensures attempt.None? <==> name !in schedules || schedules[name].paused
      ensures attempt == Some(StartedRun) <==>
                && name in schedules && !schedules[name].paused
                && (schedules[name].allowConcurrent || running == Some(false)) && saveRun
    {
      if name !in schedules || schedules[name].paused {
        return None;
      }
      var made := Trigger(name, false, running, saveRun, now, true);
      return Some(made);
    }
  }

  /** In every state, the names with an entry are those whose schedule is there,
      not paused and not a completed one-time schedule; the entry holds the
      current schedule; and the cron has no other entries and none shared. */
  lemma EntriesAreLive(e: Engine)
    requires e.Valid()
    ensures forall name :: name in e.entryIDs <==>
              && name in e.schedules && !e.schedules[name].paused
              && !(e.schedules[name].kind == Once && e.schedules[name].completedAt.Some?)
    ensures forall name :: name in e.entryIDs ==>
              e.entryIDs[name] in e.cronEntries && e.cronEntries[e.entryIDs[name]] == e.schedules[name]
    ensures forall a, b :: a in e.entryIDs && b in e.entryIDs && a != b ==> e.entryIDs[a] != e.entryIDs[b]
    ensures e.cronEntries.Keys == e.entryIDs.Values
  {
    assert forall name :: name in LiveNames(e.schedules) <==> name in e.entryIDs;
    forall id | id in e.cronEntries ensures id in e.entryIDs.Values {
      assert e.entryIDs[e.cronEntries[id].name] == id;
    }
  }

  // ------------------------------------------------------------------ startup

  /** The schedules bucket as the engine writes it. */
  ghost predicate WellKept(saved: ScheduleMap) {
    forall name :: name in saved ==> saved[name].name == name && Normalized(saved[name])
  }

  /** `ListSchedules`: the saved schedules in name order. */
  method ListSchedules(saved: ScheduleMap) returns (list: seq<Schedule>)
    requires WellKept(saved)
    ensures TableOf(list) == saved && |list| == |Walk(saved.Keys)|
    ensures forall i :: 0 <= i < |list| ==> list[i].name in saved && saved[list[i].name] == list[i]
    ensures list == [] <==> saved == map[]
  {
    WalkVisits(saved.Keys);
    var names := Walk(saved.Keys);
    assert forall i :: 0 <= i < |names| ==> names[i] in names;
    list := seq(|names|, i requires 0 <= i < |names| => saved[names[i]]);
    ListedTable(saved, names, list);
    if list == [] { assert forall name :: name in saved ==> name in names; }
  }

  lemma ListedTable(saved: ScheduleMap, names: seq<string>, list: seq<Schedule>)
    requires WellKept(saved) && |list| == |names|
    requires forall name :: name in names <==> name in saved
    requires forall i :: 0 <= i < |names| ==> names[i] in saved && list[i] == saved[names[i]]
    ensures TableOf(list) == saved
  {
    TableOfOwn(list, saved);
    forall name | name in saved ensures name in TableOf(list) {
      var i :| 0 <= i < |names| && names[i] == name;
      assert list[i].name == name;
    }
  }

  /** The engine can take over every schedule of the list: each is accepted,
      and the cron refuses no job it needs. */
  ghost predicate Loadable(checks: Checks, list: seq<Schedule>, refused: set<string>) {
    forall i :: 0 <= i < |list| ==> Loads(checks, list[i], refused)
  }

  lemma LoadableNext(checks: Checks, list: seq<Schedule>, i: nat, refused: set<string>)
    requires i < |list| && Loadable(checks, list[..i], refused)
    ensures Loadable(checks, list[..i + 1], refused) <==> Loads(checks, list[i], refused)
  {
    assert list[..i + 1] == list[..i] + [list[i]];
  }

  predicate Loads(checks: Checks, s: Schedule, refused: set<string>) {
    checks.accepts(s) && (Active(Normalize(s)) ==> s.name !in refused)
  }

  /** The seeding loop of `NewEngine`; the disk lets `writes` writes through. */
  method Seed(store: ScheduleStore, configured: seq<Schedule>, writes: nat) returns (ok: bool)
    requires store.saved == map[]
    modifies store
    ensures ok <==> |configured| <= writes
    ensures store.saved == TableOf(if ok then configured else configured[..writes])
  {
    for i := 0 to |configured|
      invariant i <= writes
      invariant store.saved == TableOf(configured[..i])
    {
      assert configured[..i + 1][..i] == configured[..i];
      if i >= writes {
        return false;
      }
      store.Save(configured[i], true);
    }
    assert configured[..|configured|] == configured;
    return true;
  }

  /** The engine can take over every saved schedule. */
  ghost predicate SavedLoadable(checks: Checks, saved: ScheduleMap, refused: set<string>) {
    forall name :: name in saved ==> Loads(checks, saved[name], refused)
  }

  lemma ListedLoadable(checks: Checks, saved: ScheduleMap, list: seq<Schedule>, refused: set<string>)
    requires forall i :: 0 <= i < |list| ==> list[i].name in saved && saved[list[i].name] == list[i]
    requires TableOf(list) == saved
    ensures Loadable(checks, list, refused) <==> SavedLoadable(checks, saved, refused)
  {
    TableNames(list);
    forall name | name in saved && Loadable(checks, list, refused) ensures Loads(checks, saved[name], refused) {
      var i :| 0 <= i < |list| && list[i].name == name;
    }
  }

  /** `NewEngine`: load the saved schedules, or seed an empty store from the
      configuration. It starts exactly when the store lets the seeds and the
      startup prune through and every schedule can be taken over. A store it has
      seeded stays seeded when it does not start. `pruned` says whether the prune
      succeeds. */
  method NewEngine(checks: Checks, configured: seq<Schedule>, store: ScheduleStore, writes: nat, pruned: bool,
                   refused: set<string>) returns (e: Engine?)
    requires checks.Reliable() && WellKept(store.saved)
    modifies store
    ensures e != null ==> fresh(e) && e.Valid() && e.checks == checks && e.store == store && e.Synced()
    ensures old(store.saved) != map[] || configured == [] ==> store.saved == old(store.saved)
    ensures old(store.saved) == map[] ==>
              store.saved == TableOf(if |configured| <= writes then configured else configured[..writes])
    ensures old(store.saved) != map[] ==>
              (e != null <==> pruned && SavedLoadable(checks, old(store.saved), refused))
    ensures old(store.saved) == map[] ==>
              (e != null <==> pruned && |configured| <= writes && Loadable(checks, configured, refused))
  {
    var list := ListSchedules(store.saved);
    ListedLoadable(checks, store.saved, list, refused);
    if list == [] && configured != [] {
      var seeded := Seed(store, configured, writes);
      if !seeded {
        return null;
      }
      list := configured;
    }
    if !pruned {
      return null;
    }
    var engine := new Engine.Empty(checks, store);
    assert list[..|list|] == list;
    var ok := engine.RegisterAll(list, refused);
    return if ok then engine else null;
  }

  /** A rejected definition that has been seeded into an empty store keeps the
      engine from ever starting, whatever the configuration says afterwards. */
  method SeedRejected(checks: Checks, first: seq<Schedule>, later: seq<Schedule>, store: ScheduleStore, name: string)
    returns (e: Engine?, again: Engine?)
    requires checks.Reliable() && store.saved == map[]
    requires name in TableOf(first) && !checks.accepts(TableOf(first)[name])
    modifies store
    ensures e == null && again == null && store.saved == TableOf(first)
  {
    TableKept(first);
    TableNames(first);
    e := NewEngine(checks, first, store, |first|, true, {});
    again := NewEngine(checks, later, store, |later|, true, {});
  }

  lemma {:induction false} TableKept(list: seq<Schedule>)
    ensures WellKept(TableOf(list))
  {
    if list != [] {
      NormalizeTwice(list[|list| - 1]);
      TableKept(list[..|list| - 1]);
    }
  }

  /** A restart at any point where memory and disk agree brings back the same
      schedules and the same live names; without schedules it starts over from
      the configuration. */
  method Restart(e: Engine, configured: seq<Schedule>) returns (restarted: Engine)
    requires e.Valid() && e.Synced()
    requires e.schedules == map[] ==> Loadable(e.checks, configured, {})
    modifies e.store
    ensures fresh(restarted) && restarted.Valid() && restarted.Synced()
    ensures restarted.checks == e.checks && restarted.store == e.store && e.schedules == old(e.schedules)
    ensures restarted.schedules == if e.schedules == map[] then TableOf(configured) else e.schedules
    ensures e.schedules != map[] ==> restarted.entryIDs.Keys == e.entryIDs.Keys && e.store.saved == old(e.store.saved)
  {
    var started := NewEngine(e.checks, configured, e.store, |configured|, true, {});
    assert e.schedules != map[] ==> started.entryIDs.Keys == LiveNames(e.schedules) == e.entryIDs.Keys;
    return started;
  }
}
