/** The indexed store: one bucket of runs, two ordered indexes and a stored
    count of completed runs, all kept in step by every transaction. */
module BoltStore {
  import opened Lex
  import opened Runs
  import opened Retained
  import opened StoreSpec
  import opened RunIndex

  /** The database file; a file written before the indexes existed lacks
      some of the last three. */
  datatype File = File(runs: RunMap, starts: Option<Index>, running: Option<Index>, completedCount: Option<nat>) {
    predicate HasIndexes() {
      starts.Some? && running.Some? && completedCount.Some?
    }
  }

  datatype Victim = Victim(key: string, id: string)

  /** The victims are exactly the runs of `d`. */
  ghost predicate Lists(victims: seq<Victim>, d: seq<Run>) {
    |victims| == |d| && forall k :: 0 <= k < |d| ==> victims[k].id == d[k].id
  }

  /** Each victim is an entry of the started-at index. */
  ghost predicate Entries(victims: seq<Victim>, starts: Index) {
    forall k :: 0 <= k < |victims| ==> victims[k].key in starts && starts[victims[k].key] == victims[k].id
  }

  /** What the newest-first walk has collected when it stops. */
  lemma ListedIs(asc: seq<Run>, listed: seq<Run>, limit: int)
    requires |listed| <= |asc|
    requires forall k :: 0 <= k < |listed| ==> listed[k] == asc[|asc| - 1 - k]
    requires if limit > 0 then |listed| == limit || (|listed| == |asc| && |asc| <= limit) else |listed| == |asc|
    ensures listed == Trim(Reversed(asc), limit)
  {
  }

  lemma DoneOfOrdered(m: RunMap)
    requires Keyed(m)
    ensures DistinctIds(Done(Ordered(m))) && |Done(Ordered(m))| == |CompletedIds(m)|
  {
    OrderedIs(m);
    DoneOf(Ordered(m), m);
  }

  /** Where an age scan stops, the expired completed runs have all been seen. */
  lemma ExpiredStop(m: RunMap, i: nat, cutoff: int)
    requires Keyed(m) && i <= |Ordered(m)|
    requires forall k :: 0 <= k < i ==> Ordered(m)[k].startedAt < cutoff
    requires i < |Ordered(m)| ==> Ordered(m)[i].startedAt >= cutoff
    ensures DoneUpTo(Ordered(m), i) == Done(Ordered(m))[..ExpiredCount(Done(Ordered(m)), cutoff)]
  {
    OrderedIs(m);
    SplitAtCutoff(Ordered(m), i, cutoff);
    DoneUpToIs(Ordered(m), i);
  }

  lemma SplitAtCutoff(asc: seq<Run>, i: nat, cutoff: int)
    requires OldestFirst(asc) && i <= |asc|
    requires forall k :: 0 <= k < i ==> asc[k].startedAt < cutoff
    requires i < |asc| ==> asc[i].startedAt >= cutoff
    ensures |Done(asc[..i])| == ExpiredCount(Done(asc), cutoff)
  {
    assert asc == asc[..i] + asc[i..];
    DoneConcat(asc[..i], asc[i..]);
    DoneMembers(asc[..i]);
    DoneMembers(asc[i..]);
    var old', young := Done(asc[..i]), Done(asc[i..]);
    forall k | 0 <= k < |old'| ensures old'[k].startedAt < cutoff { assert old'[k] in asc[..i]; }
    forall k | 0 <= k < |young| ensures young[k].startedAt >= cutoff { assert young[k] in asc[i..]; }
    CountSplit(old', young, cutoff);
  }

  lemma {:induction false} CountSplit(s: seq<Run>, t: seq<Run>, cutoff: int)
    requires forall k :: 0 <= k < |s| ==> s[k].startedAt < cutoff
    requires forall k :: 0 <= k < |t| ==> t[k].startedAt >= cutoff
    ensures ExpiredCount(s + t, cutoff) == |s|
    decreases |s| + |t|
  {
    if s != [] {
      assert (s + t)[1..] == s[1..] + t;
      CountSplit(s[1..], t, cutoff);
    } else if t != [] {
      assert s + t == t && s + t[1..] == t[1..];
      CountSplit(s, t[1..], cutoff);
    }
  }

  /** After the first `n` completed runs are gone, the others follow. */
  lemma DoneAfterCut(m: RunMap, n: nat)
    requires Keyed(m) && n <= |Done(Ordered(m))|
    ensures Done(Ordered(m - Ids(Done(Ordered(m))[..n]))) == Done(Ordered(m))[n..]
    ensures |CompletedIds(m - Ids(Done(Ordered(m))[..n]))| == |Done(Ordered(m))| - n
  {
    var asc := Ordered(m);
    var gone := Ids(Done(asc)[..n]);
    OrderedIs(m);
    OrderedIs(m - gone);
    WithoutEnumerates(asc, m, gone);
    OrderedUnique(Without(asc, gone), Ordered(m - gone), m - gone);
    DoneWithout(asc, n);
    DoneOfOrdered(m - gone);
  }

  /** Two cuts in a row are one. */
  lemma TwoCuts(m: RunMap, done: seq<Run>, retention: Retention, now: int, aged: nat, n: nat)
    requires aged == AgeVictims(done, retention, now) && n == CountVictims(done[aged..], retention)
    ensures aged + n == VictimCount(done, retention, now)
    ensures m - Ids(done[..aged]) - Ids(done[aged..][..n]) == m - Ids(done[..VictimCount(done, retention, now)])
  {
    IdsConcat(done[..aged], done[aged..][..n]);
    assert done[..aged] + done[aged..][..n] == done[..aged + n];
  }

  lemma TakeNone(m: RunMap, done: seq<Run>)
    ensures m - Ids(done[..0]) == m
  {
  }

  /** The age pass and then the count pass make one cut. */
  lemma TwoPasses(m: RunMap, done: seq<Run>, mid: RunMap, retention: Retention, now: int, aged: nat, n: nat)
    requires Keyed(m) && done == Done(Ordered(m)) && aged == AgeVictims(done, retention, now)
    requires mid == m - Ids(done[..aged]) && n == CountVictims(Done(Ordered(mid)), retention)
    ensures aged + n == VictimCount(done, retention, now)
    ensures mid - Ids(Done(Ordered(mid))[..n]) == m - Victims(Ordered(m), retention, now)
  {
    DoneAfterCut(m, aged);
    TwoCuts(m, done, retention, now, aged, n);
    VictimsAre(Ordered(m), done, retention, now);
  }

  /** What is reported as kept is the number of completed runs left. */
  lemma KeptAre(m: RunMap, retention: Retention, now: int)
    requires Keyed(m)
    ensures Report(Ordered(m), retention, now).kept == |CompletedIds(m - Victims(Ordered(m), retention, now))|
  {
    var done := Done(Ordered(m));
    VictimsAre(Ordered(m), done, retention, now);
    DoneAfterCut(m, VictimCount(done, retention, now));
  }

  lemma VictimsAre(asc: seq<Run>, done: seq<Run>, retention: Retention, now: int)
    requires done == Done(asc)
    ensures var n := VictimCount(done, retention, now);
      Victims(asc, retention, now) == Ids(done[..n]) && Report(asc, retention, now) == PruneResult(n, |done| - n)
  {
  }

  /** How many completed runs are over the record limit. */
  function CountVictims(done: seq<Run>, retention: Retention): (n: nat)
    ensures n <= |done|
  {
    if retention.maxRecords > 0 then Max(0, |done| - retention.maxRecords) else 0
  }

  lemma NextGone(m: RunMap, d: seq<Run>, i: nat)
    requires i < |d|
    ensures m - Ids(d[..i]) - {d[i].id} == m - Ids(d[..i + 1])
  {
    assert d[..i + 1] == d[..i] + [d[i]];
    IdsAppend(d[..i], d[i]);
  }

  /** `part` is the map cut down to the listed ids. */
  ghost predicate Part(part: RunMap, ids: seq<string>, m: RunMap) {
    && (forall id :: id in part <==> id in ids)
    && (forall id :: id in part ==> id in m && part[id] == m[id])
  }

  lemma PartStep(part: RunMap, ids: seq<string>, i: nat, m: RunMap)
    requires i < |ids| && Part(part, ids[..i], m) && Ascending(ids) && Keyed(m)
    requires forall id :: id in ids <==> id in m
    ensures ids[i] in m && ids[i] !in part && m[ids[i]].id == ids[i]
    ensures Part(part[ids[i] := m[ids[i]]], ids[..i + 1], m)
  {
    assert ids[i] in ids;
    forall k | 0 <= k < i ensures ids[k] != ids[i] { Asymmetric(ids[k], ids[i]); }
    assert ids[..i + 1] == ids[..i] + [ids[i]];
  }

  /** One round of the rebuild loop. */
  lemma IndexStep(starts: Index, running: Index, count: int, part: RunMap, ids: seq<string>, i: nat, m: RunMap)
    requires i < |ids| && Part(part, ids[..i], m) && Ascending(ids) && Sound(m)
    requires forall id :: id in ids <==> id in m
    requires Describes(starts, running, count, part)
    ensures ids[i] in m && m[ids[i]].id == ids[i] && Storable(m[ids[i]])
    ensures var run := m[ids[i]];
      && Part(part[run.id := run], ids[..i + 1], m)
      && Describes(starts[StartedKey(run) := run.id], WithRunning(running, run), count + CompletedWeight(run),
                   part[run.id := run])
  {
    PartStep(part, ids, i, m);
    PutDescribes(starts, running, count, part, m[ids[i]]);
  }

  lemma PartWhole(part: RunMap, ids: seq<string>, m: RunMap)
    requires Part(part, ids[..|ids|], m)
    requires forall id :: id in ids <==> id in m
    ensures part == m
  {
    assert ids[..|ids|] == ids;
  }

  /** Schedule names are of the kind the engine accepts. */
  predicate Named(request: Request) {
    match request
    case SaveRun(run) => NulFree(run.scheduleName)
    case UpdateRun(run) => NulFree(run.scheduleName)
    case HasRunningRun(name) => NulFree(name)
    case _ => true
  }

  class BoltStore {
    var runs: RunMap
    var starts: Index
    var running: Index
    var completedCount: int

    ghost predicate Valid()
      reads this
    {
      Describes(starts, running, completedCount, runs)
    }

    /** A cursor on the started-at index: its keys, oldest first, lead to the
        runs of `asc`. */
    ghost predicate Visits(keys: seq<string>, asc: seq<Run>)
      reads this
    {
      && |keys| == |asc|
      && forall i :: 0 <= i < |keys| ==>
           keys[i] in starts && starts[keys[i]] == asc[i].id && asc[i].id in runs && runs[asc[i].id] == asc[i]
    }

    method Cursor() returns (keys: seq<string>)
      requires Valid()
      ensures Visits(keys, Ordered(runs))
    {
      keys := Walk(starts.Keys);
      WalkIsOrdered(starts, runs);
    }

    /** `startedAtFromRunIndexKey` on a key of the index never fails. */
    method StartOf(key: string) returns (startedAt: int)
      requires Valid() && key in starts
      ensures starts[key] in runs && startedAt == runs[starts[key]].startedAt
    {
      KeyTime(starts, runs, key);
      startedAt := StartedAtFromKey(key).value;
    }

    /** `OpenBoltStore`: rebuild the indexes when any of them is missing. */
    constructor Open(file: File)
      requires Sound(file.runs)
      requires file.HasIndexes() ==>
                 Describes(file.starts.value, file.running.value, file.completedCount.value, file.runs)
      ensures Valid() && runs == file.runs
    {
      runs := file.runs;
      starts := if file.starts.Some? then file.starts.value else map[];
      running := if file.running.Some? then file.running.value else map[];
      completedCount := if file.completedCount.Some? then file.completedCount.value else 0;
      new;
      if !file.HasIndexes() {
        RebuildRunIndexes();
      }
    }

    method RebuildRunIndexes()
      requires Sound(runs)
      modifies this`starts, this`running, this`completedCount
      ensures Valid()
    {
      starts, running := map[], map[];
      SetCompletedRunCount(0);
      var count := 0;
      var ids := Walk(runs.Keys);
      ghost var part: RunMap := map[];
      EmptyDescribes();
      WalkVisits(runs.Keys);
      for i := 0 to |ids|
        invariant Part(part, ids[..i], runs)
        invariant Describes(starts, running, count, part)
      {
        IndexStep(starts, running, count, part, ids, i, runs);
        var run := runs[ids[i]];
        part := part[run.id := run];
        AddRunIndexes(run);
        if run.Completed() {
          count := count + 1;
        }
      }
      PartWhole(part, ids, runs);
      SetCompletedRunCount(count);
    }

    method AddRunIndexes(run: Run)
      requires Encodable(run)
      modifies this`starts, this`running
      ensures starts == old(starts)[StartedKey(run) := run.id]
      ensures running == WithRunning(old(running), run)
    {
      starts := starts[StartedKey(run) := run.id];
      if run.status == Running {
        running := running[RunningKey(run) := run.id];
      }
    }

    method RemoveRunIndexes(run: Run)
      requires Encodable(run)
      modifies this`starts, this`running
      ensures starts == old(starts) - {StartedKey(run)}
      ensures running == WithoutRunning(old(running), run)
    {
      starts := starts - {StartedKey(run)};
      if run.status == Running {
        running := running - {RunningKey(run)};
      }
    }

    method SetCompletedRunCount(count: int)
      modifies this`completedCount
      ensures completedCount == Max(count, 0)
    {
      completedCount := if count < 0 then 0 else count;
    }

    method IncrementCompletedRunCount(delta: int)
      modifies this`completedCount
      ensures completedCount == Max(old(completedCount) + delta, 0)
    {
      SetCompletedRunCount(completedCount + delta);
    }

    /** The body of `writeRun`: replace the old run's entries by the new run's
        and adjust the count, which is exact, so its clamp never fires. */
    method PutRun(run: Run)
      requires Valid() && Storable(run) && NulFree(run.scheduleName)
      modifies this
      ensures Valid()
      ensures runs == old(runs)[run.id := run]
      ensures completedCount == old(completedCount) + CompletedWeight(run)
                - (if run.id in old(runs) then CompletedWeight(old(runs)[run.id]) else 0)
    {
      if run.id in runs {
        ReplaceRun(run);
      } else {
        InsertRun(run);
      }
    }

    method ReplaceRun(run: Run)
      requires Valid() && Storable(run) && NulFree(run.scheduleName) && run.id in runs
      modifies this
      ensures Valid() && runs == old(runs)[run.id := run]
      ensures completedCount == old(completedCount) + CompletedWeight(run) - CompletedWeight(old(runs)[run.id])
    {
      ReplaceDescribes(starts, running, completedCount, runs, run);
      var oldRun := runs[run.id];
      RemoveRunIndexes(oldRun);
      runs := runs[run.id := run];
      AddRunIndexes(run);
      AdjustCount(CompletedWeight(run) - CompletedWeight(oldRun));
    }

    method InsertRun(run: Run)
      requires Valid() && Storable(run) && NulFree(run.scheduleName) && run.id !in runs
      modifies this
      ensures Valid() && runs == old(runs)[run.id := run]
      ensures completedCount == old(completedCount) + CompletedWeight(run)
    {
      PutDescribes(starts, running, completedCount, runs, run);
      runs := runs[run.id := run];
      AddRunIndexes(run);
      AdjustCount(CompletedWeight(run));
    }

    /** The two `incrementCompletedRunCount` branches of `writeRun`. */
    method AdjustCount(delta: int)
      requires -1 <= delta <= 1
      modifies this`completedCount
      ensures completedCount == if delta == 0 then old(completedCount) else Max(old(completedCount) + delta, 0)
    {
      if delta == 1 {
        IncrementCompletedRunCount(1);
      } else if delta == -1 {
        IncrementCompletedRunCount(-1);
      }
    }

    /** `writeRun` as a transaction: JSON or bbolt may refuse the run, and the
        commit may fail; either way nothing changes. */
    method WriteRun(run: Run, commits: bool) returns (ok: bool)
      requires Valid() && NulFree(run.scheduleName)
      modifies this
      ensures Valid()
      ensures ok <==> Storable(run) && commits
      ensures runs == if ok then old(runs)[run.id := run] else old(runs)
      ensures !ok ==> unchanged(this)
    {
      ok := Storable(run) && commits;
      if ok {
        PutRun(run);
      }
    }

    method SaveRun(run: Run, commits: bool) returns (ok: bool)
      requires Valid() && NulFree(run.scheduleName)
      modifies this
      ensures Valid()
      ensures ok <==> Storable(run) && commits
      ensures runs == if ok then old(runs)[run.id := run] else old(runs)
    {
      ok := WriteRun(run, commits);
    }

    method UpdateRun(run: Run, commits: bool) returns (ok: bool)
      requires Valid() && NulFree(run.scheduleName)
      modifies this
      ensures Valid()
      ensures ok <==> Storable(run) && commits
      ensures runs == if ok then old(runs)[run.id := run] else old(runs)
    {
      ok := WriteRun(run, commits);
    }

    /** Walk the cursor backwards and stop at the limit. */
    method ReadBackwards(keys: seq<string>, ghost asc: seq<Run>, limit: int) returns (listed: seq<Run>)
      requires Visits(keys, asc)
      ensures listed == Trim(Reversed(asc), limit)
    {
      listed := [];
      var i := |keys|;
      while i > 0
        invariant 0 <= i <= |keys| && |listed| == |keys| - i
        invariant forall k :: 0 <= k < |listed| ==> listed[k] == asc[|keys| - 1 - k]
        invariant limit > 0 ==> |listed| <= limit && (i < |keys| ==> |listed| < limit)
      {
        i := i - 1;
        var id := starts[keys[i]]; // every index value resolves
        listed := listed + [runs[id]];
        if limit > 0 && |listed| >= limit {
          break;
        }
      }
      ListedIs(asc, listed, limit);
    }

    method ListRuns(limit: int) returns (listed: seq<Run>)
      requires Valid()
      ensures listed == Trim(Reversed(Ordered(runs)), limit)
      ensures |listed| == if limit <= 0 || |runs| < limit then |runs| else limit
      ensures forall i :: 0 <= i < |listed| ==> listed[i].id in runs && runs[listed[i].id] == listed[i]
      ensures forall i, j :: 0 <= i < j < |listed| ==> Earlier(listed[j], listed[i])
      ensures forall id, i :: id in runs && id !in Ids(listed) && 0 <= i < |listed| ==>
                runs[id].startedAt <= listed[i].startedAt
    {
      var keys := Cursor();
      listed := ReadBackwards(keys, Ordered(runs), limit);
      OrderedIs(runs);
      ChronologicalOldestFirst(Ordered(runs));
      ListMeans(Ordered(runs), runs, limit, listed);
    }

    method ClearRuns(commits: bool) returns (ok: bool)
      requires Valid()
      modifies this
      ensures Valid() && ok == commits
      ensures runs == if ok then map[] else old(runs)
    {
      if !commits {
        return false;
      }
      runs, starts, running := map[], map[], map[];
      SetCompletedRunCount(0);
      EmptyDescribes();
      return true;
    }

    /** `deleteRunByIndexedKey` on an entry of the index. Its run-not-found
        error does not arise: every index value resolves. */
    method DeleteRunByIndexedKey(key: string, id: string)
      requires Valid()
      requires key in starts && starts[key] == id
      modifies this
      ensures Valid()
      ensures id in old(runs) && runs == old(runs) - {id}
      ensures starts == old(starts) - {key}
      ensures completedCount == old(completedCount) - CompletedWeight(old(runs)[id])
    {
      assert id in runs;
      var run := runs[id];
      DropDescribes(starts, running, completedCount, runs, id);
      starts := starts - {key};
      if run.status == Running {
        running := running - {RunningKey(run)};
      }
      runs := runs - {id};
      if run.Completed() {
        IncrementCompletedRunCount(-1);
      }
    }

    /** The loop that ends both prune passes. */
    method DeleteVictims(victims: seq<Victim>, ghost d: seq<Run>)
      requires Valid() && Lists(victims, d) && DistinctIds(d) && Entries(victims, starts)
      modifies this
      ensures Valid()
      ensures runs == old(runs) - Ids(d)
    {
      for i := 0 to |victims|
        invariant Valid()
        invariant forall k :: i <= k < |victims| ==> victims[k].key in starts && starts[victims[k].key] == victims[k].id
        invariant runs == old(runs) - Ids(d[..i])
      {
        DeleteRunByIndexedKey(victims[i].key, victims[i].id);
        NextGone(old(runs), d, i);
      }
      assert d[..|victims|] == d;
    }

    /** The scan of `pruneRunsOlderThan`: from the oldest key to the first one
        that is not expired. */
    method ExpiredVictims(cutoff: int) returns (victims: seq<Victim>)
      requires Valid()
      ensures var done := Done(Ordered(runs)); Lists(victims, done[..ExpiredCount(done, cutoff)])
      ensures Entries(victims, starts)
    {
      var keys := Cursor();
      ghost var i;
      victims, i := ScanExpired(keys, Ordered(runs), cutoff);
      ExpiredStop(runs, i, cutoff);
    }

    method ScanExpired(keys: seq<string>, ghost asc: seq<Run>, cutoff: int)
      returns (victims: seq<Victim>, ghost stop: nat)
      requires Valid() && Visits(keys, asc)
      ensures stop <= |asc| && Lists(victims, DoneUpTo(asc, stop)) && Entries(victims, starts)
      ensures forall k :: 0 <= k < stop ==> asc[k].startedAt < cutoff
      ensures stop < |asc| ==> asc[stop].startedAt >= cutoff
    {
      victims := [];
      var i := 0;
      while i < |keys|
        invariant 0 <= i <= |keys|
        invariant Lists(victims, DoneUpTo(asc, i)) && Entries(victims, starts)
        invariant forall k :: 0 <= k < i ==> asc[k].startedAt < cutoff
      {
        var startedAt := StartOf(keys[i]);
        if startedAt >= cutoff {
          break;
        }
        var id := starts[keys[i]];
        i := i + 1;
        if runs[id].status == Running {
          continue;
        }
        victims := victims + [Victim(keys[i - 1], id)];
      }
      stop := i;
    }

    method PruneRunsOlderThan(cutoff: int) returns (n: nat)
      requires Valid()
      modifies this
      ensures Valid()
      ensures n == ExpiredCount(Done(Ordered(old(runs))), cutoff)
      ensures runs == old(runs) - Ids(Done(Ordered(old(runs)))[..n])
    {
      var victims := ExpiredVictims(cutoff);
      n := |victims|;
      DoneOfOrdered(runs);
      DeleteVictims(victims, Done(Ordered(runs))[..n]);
    }

    /** The scan of `pruneRunsOverCount`: it finds as many victims as the stored
        count says are too many. */
    method OldestVictims(excess: nat) returns (victims: seq<Victim>)
      requires Valid() && excess <= completedCount
      ensures var done := Done(Ordered(runs)); excess <= |done| && Lists(victims, done[..excess])
      ensures Entries(victims, starts)
    {
      var keys := Cursor();
      ghost var i;
      victims, i := ScanOldest(keys, Ordered(runs), excess);
      DoneUpToIs(Ordered(runs), i);
      DoneOfOrdered(runs);
    }

    method ScanOldest(keys: seq<string>, ghost asc: seq<Run>, excess: nat)
      returns (victims: seq<Victim>, ghost stop: nat)
      requires Visits(keys, asc)
      ensures stop <= |asc| && Lists(victims, DoneUpTo(asc, stop)) && Entries(victims, starts)
      ensures |victims| <= excess && (stop < |asc| ==> |victims| == excess)
    {
      victims := [];
      var i := 0;
      while i < |keys| && |victims| < excess
        invariant 0 <= i <= |keys| && |victims| <= excess
        invariant Lists(victims, DoneUpTo(asc, i)) && Entries(victims, starts)
      {
        var id := starts[keys[i]];
        i := i + 1;
        if runs[id].status == Running {
          continue;
        }
        victims := victims + [Victim(keys[i - 1], id)];
      }
      stop := i;
    }

    method PruneRunsOverCount(maxRecords: int) returns (n: nat)
      requires Valid() && maxRecords > 0
      modifies this
      ensures Valid()
      ensures n == Max(0, |Done(Ordered(old(runs)))| - maxRecords)
      ensures runs == old(runs) - Ids(Done(Ordered(old(runs)))[..n])
    {
      DoneOfOrdered(runs);
      var excess := completedCount - maxRecords;
      if excess <= 0 {
        return 0;
      }
      var victims := OldestVictims(excess);
      n := |victims|;
      DeleteVictims(victims, Done(Ordered(runs))[..n]);
    }

    method AgePass(retention: Retention, now: int) returns (n: nat)
      requires Valid()
      modifies this
      ensures Valid()
      ensures n == AgeVictims(Done(Ordered(old(runs))), retention, now)
      ensures runs == old(runs) - Ids(Done(Ordered(old(runs)))[..n])
    {
      n := 0;
      if retention.maxAgeDays > 0 {
        n := PruneRunsOlderThan(now - retention.maxAgeDays * TimeKey.DAY);
      } else {
        TakeNone(runs, Done(Ordered(runs)));
      }
    }

    method CountPass(retention: Retention) returns (n: nat)
      requires Valid()
      modifies this
      ensures Valid()
      ensures n == CountVictims(Done(Ordered(old(runs))), retention)
      ensures runs == old(runs) - Ids(Done(Ordered(old(runs)))[..n])
    {
      n := 0;
      if retention.maxRecords > 0 {
        n := PruneRunsOverCount(retention.maxRecords);
      } else {
        TakeNone(runs, Done(Ordered(runs)));
      }
    }

    /** The body of `PruneRuns`: the age pass, then the count pass. */
    method PruneBoth(retention: Retention, now: int) returns (result: PruneResult)
      requires Valid()
      modifies this
      ensures Valid()
      ensures runs == old(runs) - Victims(Ordered(old(runs)), retention, now)
      ensures result == Report(Ordered(old(runs)), retention, now)
    {
      ghost var m, done := runs, Done(Ordered(runs));
      var aged := AgePass(retention, now);
      ghost var mid := runs;
      var n := CountPass(retention);
      TwoPasses(m, done, mid, retention, now, aged, n);
      KeptAre(m, retention, now);
      result := PruneResult(aged + n, completedCount);
    }

    method PruneRuns(retention: Retention, now: int, commits: bool) returns (ok: bool, result: PruneResult)
      requires Valid()
      modifies this
      ensures Valid() && ok == commits
      ensures !ok ==> unchanged(this)
      ensures ok ==> runs == old(runs) - Victims(Ordered(old(runs)), retention, now)
      ensures ok ==> result == Report(Ordered(old(runs)), retention, now)
      ensures ok ==> Retains(old(runs), runs, retention, now, true) && Retains(old(runs), runs, retention, now, false)
      ensures ok && retention.maxAgeDays > 0 ==>
                forall id :: (id in old(runs) && old(runs)[id].status != Running
                              && old(runs)[id].startedAt < now - retention.maxAgeDays * 86_400_000_000_000)
                             ==> id !in runs
      ensures ok && retention.maxRecords <= 0 ==>
                forall id :: id in old(runs) && id !in runs ==>
                  old(runs)[id].status != Running && retention.maxAgeDays > 0
                  && old(runs)[id].startedAt < now - retention.maxAgeDays * 86_400_000_000_000
      ensures ok ==> result.kept + |set id | id in runs && runs[id].status == Running| == |runs|
      ensures ok ==> result.deleted + |runs| == |old(runs)|
    {
      ok, result := commits, PruneResult(0, 0);
      if ok {
        ghost var before := runs;
        OrderedIs(runs);
        PruneRetains(Ordered(runs), runs, retention, now);
        ReportMeans(Ordered(runs), runs, retention, now);
        result := PruneBoth(retention, now);
        PruneByAge(before, runs, retention, now, true);
      }
    }

    method HasRunningRun(scheduleName: string) returns (found: bool)
      requires Valid() && NulFree(scheduleName)
      ensures found == HasRunning(runs, scheduleName)
      ensures found <==> exists id :: id in runs && runs[id].status == Running && runs[id].scheduleName == scheduleName
    {
      var prefix := SchedulePrefix(scheduleName);
      var key := Seek(running.Keys, prefix);
      SeekDecidesRunning(running, runs, scheduleName);
      found := key.Some? && HasPrefix(key.value, prefix);
    }

    /** Any request of the `Store` interface. */
    method Serve(request: Request) returns (answer: Answer)
      requires Valid()
      requires Named(request)
      modifies this
      ensures Valid()
      ensures (runs, answer) == Indexed(old(runs), request)
    {
      match request {
        case SaveRun(run) => var ok := SaveRun(run, true); answer := if ok then Ok else Refused;
        case UpdateRun(run) => var ok := UpdateRun(run, true); answer := if ok then Ok else Refused;
        case ClearRuns => var _ := ClearRuns(true); answer := Ok;
        case PruneRuns(retention, now) => var _, result := PruneRuns(retention, now, true); answer := Pruned(result);
        case ListRuns(limit) => var listed := ListRuns(limit); answer := Listed(listed);
        case HasRunningRun(name) => var found := HasRunningRun(name); answer := Found(found);
      }
    }

    /** A whole history of requests. */
    method ServeAll(requests: seq<Request>) returns (answers: seq<Answer>)
      requires Valid()
      requires forall i :: 0 <= i < |requests| ==> Named(requests[i])
      modifies this
      ensures Valid()
      ensures answers == Answers(old(runs), requests) && runs == FinalMap(old(runs), requests)
      decreases |requests|
    {
      if requests == [] {
        return [];
      }
      var first := Serve(requests[0]);
      var rest := ServeAll(requests[1..]);
      return [first] + rest;
    }
  }

  /** Opening the file of a store again, even one that lost its indexes, gives
      the indexes and the count the store had: rebuilding agrees with the
      updates of every write made so far. */
  method Reopen(s: BoltStore, withIndexes: bool) returns (t: BoltStore)
    requires s.Valid()
    ensures t.Valid() && t.runs == s.runs
    ensures t.starts == s.starts && t.running == s.running && t.completedCount == s.completedCount
  {
    var file := if withIndexes then File(s.runs, Some(s.starts), Some(s.running), Some(s.completedCount))
                else File(s.runs, None, None, None);
    t := new BoltStore.Open(file);
    DescriptionUnique(s.runs, s.starts, s.running, s.completedCount, t.starts, t.running, t.completedCount);
  }
}
