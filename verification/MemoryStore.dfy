/** The store that scans and sorts a map. */
module MemoryStore {
  import opened Runs
  import opened Retained
  import opened StoreSpec

  predicate NewestFirst(s: seq<Run>) {
    forall i, j :: 0 <= i < j < |s| ==> s[i].startedAt >= s[j].startedAt
  }

  /** `slices.SortFunc` on start times alone, newest first: the contract leaves
      the order of ties open, as an unstable sort does. */
  method SortNewestFirst(runs: seq<Run>) returns (sorted: seq<Run>)
    ensures multiset(sorted) == multiset(runs)
    ensures NewestFirst(sorted)
  {
    sorted := [];
    for i := 0 to |runs|
      invariant multiset(sorted) == multiset(runs[..i])
      invariant NewestFirst(sorted)
    {
      assert runs[..i + 1] == runs[..i] + [runs[i]];
      sorted := Place(sorted, runs[i]);
    }
    assert runs[..|runs|] == runs;
  }

  method Place(sorted: seq<Run>, r: Run) returns (placed: seq<Run>)
    requires NewestFirst(sorted)
    ensures NewestFirst(placed) && multiset(placed) == multiset(sorted) + multiset{r}
  {
    var k := 0;
    while k < |sorted| && sorted[k].startedAt >= r.startedAt
      invariant 0 <= k <= |sorted|
      invariant forall j :: 0 <= j < k ==> sorted[j].startedAt >= r.startedAt
    {
      k := k + 1;
    }
    PlaceKeepsOrder(sorted, r, k);
    placed := sorted[..k] + [r] + sorted[k..];
  }

  lemma PlaceKeepsOrder(s: seq<Run>, r: Run, k: nat)
    requires NewestFirst(s) && k <= |s|
    requires forall j :: 0 <= j < k ==> s[j].startedAt >= r.startedAt
    requires k < |s| ==> s[k].startedAt < r.startedAt
    ensures NewestFirst(s[..k] + [r] + s[k..])
    ensures multiset(s[..k] + [r] + s[k..]) == multiset(s) + multiset{r}
  {
    PlaceKeepsAll(s, r, k);
    var older := s[k..];
    assert forall j :: 0 <= j < |older| ==> older[j].startedAt <= r.startedAt;
    Appended(s[..k], [r]);
    Appended(s[..k] + [r], older);
  }

  lemma PlaceKeepsAll(s: seq<Run>, r: Run, k: nat)
    requires k <= |s|
    ensures multiset(s[..k] + [r] + s[k..]) == multiset(s) + multiset{r}
  {
    assert s == s[..k] + s[k..];
  }

  lemma Appended(s: seq<Run>, t: seq<Run>)
    requires NewestFirst(s) && NewestFirst(t)
    requires forall i, j :: 0 <= i < |s| && 0 <= j < |t| ==> s[i].startedAt >= t[j].startedAt
    ensures NewestFirst(s + t)
  {
  }

  lemma SortedEnumerates(runs: seq<Run>, sorted: seq<Run>, m: RunMap)
    requires Enumerates(runs, m) && multiset(sorted) == multiset(runs) && NewestFirst(sorted)
    ensures Enumerates(Reversed(sorted), m) && OldestFirst(Reversed(sorted))
  {
    var asc := Reversed(sorted);
    SameMembers(runs, sorted);
    StillDistinct(runs, sorted);
    forall k | 0 <= k < |asc| ensures asc[k].id in m && m[asc[k].id] == asc[k] {
      assert asc[k] in sorted;
    }
    forall id | id in m ensures id in Ids(asc) {
      var i :| 0 <= i < |runs| && runs[i].id == id;
      assert runs[i] in sorted;
      var j :| 0 <= j < |sorted| && sorted[j] == runs[i];
      assert asc[|sorted| - 1 - j].id == id;
    }
  }

  lemma SameMembers(s: seq<Run>, t: seq<Run>)
    requires multiset(s) == multiset(t)
    ensures forall r :: r in s <==> r in t
  {
    forall r ensures r in s <==> r in t {
      assert r in multiset(s) <==> r in multiset(t);
    }
  }

  lemma SharedCount(s: seq<Run>, i: nat, j: nat)
    requires i < j < |s| && s[i] == s[j]
    ensures multiset(s)[s[i]] >= 2
  {
    assert s == s[..j] + [s[j]] + s[j + 1..];
    assert s[i] in s[..j];
  }

  lemma {:induction false} AtMostOnce(s: seq<Run>, r: Run)
    requires DistinctIds(s)
    ensures multiset(s)[r] <= 1
  {
    if s != [] {
      var t := s[..|s| - 1];
      assert s == t + [s[|t|]];
      AtMostOnce(t, r);
    }
  }

  /** The runs past the age limit are the aged victims. */
  lemma AgedIn(asc: seq<Run>, retention: Retention, now: int, i: nat)
    requires OldestFirst(asc) && retention.maxAgeDays > 0 && i < |asc| && Aged(asc[i], retention, now)
    ensures asc[i].id in Ids(Done(asc)[..AgeVictims(Done(asc), retention, now)])
  {
    var done, n := Done(asc), AgeVictims(Done(asc), retention, now);
    DoneSorted(asc);
    DoneMembers(asc);
    ExpiredPrefix(done, Cutoff(retention, now));
    var k :| 0 <= k < |done| && done[k] == asc[i];
    assert done[..n][k] == asc[i];
  }

  lemma AgedOut(asc: seq<Run>, retention: Retention, now: int, id: string) returns (i: nat)
    requires OldestFirst(asc) && retention.maxAgeDays > 0
    requires id in Ids(Done(asc)[..AgeVictims(Done(asc), retention, now)])
    ensures i < |asc| && asc[i].id == id && Aged(asc[i], retention, now)
  {
    var done, n := Done(asc), AgeVictims(Done(asc), retention, now);
    DoneSorted(asc);
    DoneMembers(asc);
    ExpiredPrefix(done, Cutoff(retention, now));
    var k :| 0 <= k < |done[..n]| && done[..n][k].id == id;
    assert done[k] in asc;
    i :| 0 <= i < |asc| && asc[i] == done[k];
  }

  predicate Aged(r: Run, retention: Retention, now: int) {
    r.Completed() && r.startedAt < Cutoff(retention, now)
  }

  /** Counts the completed runs that are not victims. */
  method RetainedCompletedRunCount(runs: seq<Run>, victims: set<string>) returns (count: nat)
    ensures count == |Without(Done(Reversed(runs)), victims)|
  {
    count := 0;
    ghost var asc := Reversed(runs);
    for i := 0 to |runs|
      invariant count == |Without(Done(asc[|runs| - i..]), victims)|
    {
      ghost var k := |runs| - i;
      assert asc[k - 1..] == [asc[k - 1]] + asc[k..] && asc[k - 1] == runs[i];
      DoneConcat([asc[k - 1]], asc[k..]);
      WithoutConcat(Done([asc[k - 1]]), Done(asc[k..]), victims);
      if runs[i].id in victims {
        continue;
      }
      if runs[i].Completed() {
        count := count + 1;
      }
    }
    assert asc[0..] == asc;
  }

  /** The age half of `pruneRuns`. */
  method VictimsByAge(runs: seq<Run>, retention: Retention, now: int) returns (victims: set<string>)
    requires NewestFirst(runs)
    ensures victims == Ids(Done(Reversed(runs))[..AgeVictims(Done(Reversed(runs)), retention, now)])
  {
    ghost var asc := Reversed(runs);
    victims := {};
    if retention.maxAgeDays > 0 {
      var cutoff := now - retention.maxAgeDays * TimeKey.DAY;
      for i := 0 to |runs|
        invariant forall id :: id in victims <==>
                    exists k :: 0 <= k < i && runs[k].id == id && Aged(runs[k], retention, now)
      {
        if runs[i].Completed() && runs[i].startedAt < cutoff {
          victims := victims + {runs[i].id};
        }
      }
      ghost var gone := Ids(Done(asc)[..AgeVictims(Done(asc), retention, now)]);
      forall id | id in victims ensures id in gone {
        var k :| 0 <= k < |runs| && runs[k].id == id && Aged(runs[k], retention, now);
        AgedIn(asc, retention, now, |runs| - 1 - k);
      }
      forall id | id in gone ensures id in victims {
        var k := AgedOut(asc, retention, now, id);
        assert runs[|runs| - 1 - k] == asc[k];
      }
    }
  }

  /** The record-limit half of `pruneRuns`. */
  method VictimsByCount(runs: seq<Run>, aged: set<string>, retention: Retention, ghost now: int)
    returns (victims: set<string>)
    requires DistinctIds(Done(Reversed(runs)))
    requires aged == Ids(Done(Reversed(runs))[..AgeVictims(Done(Reversed(runs)), retention, now)])
    ensures victims == Victims(Reversed(runs), retention, now)
  {
    victims := aged;
    ghost var done := Done(Reversed(runs));
    ghost var v := AgeVictims(done, retention, now);
    if retention.maxRecords > 0 {
      var keptCount := RetainedCompletedRunCount(runs, victims);
      WithoutPrefix(done, v);
      victims, v := DropOldest(runs, done, aged, v, keptCount, retention.maxRecords);
    }
    assert v == VictimCount(done, retention, now);
  }

  /** Walk from the oldest run, adding victims until no more than `maxRecords`
      completed runs are kept. */
  method DropOldest(runs: seq<Run>, ghost done: seq<Run>, aged: set<string>, ghost n: nat, kept: nat, maxRecords: nat)
    returns (victims: set<string>, ghost v: nat)
    requires done == Done(Reversed(runs)) && DistinctIds(done) && Dropped(done, n, aged, kept)
    ensures v == Max(n, |done| - maxRecords) && victims == Ids(done[..v])
  {
    ghost var asc := Reversed(runs);
    victims := aged;
    var keptCount: int := kept;
    ghost var j, walked := 0, 0;
    v := n;
    var i := |runs| - 1;
    while keptCount > maxRecords && i >= 0
      invariant -1 <= i < |runs| && j == |runs| - 1 - i && walked == |DoneUpTo(asc, j)|
      invariant Dropped(done, v, victims, keptCount) && walked <= v
      invariant v == n || (v == walked && v > n && keptCount >= maxRecords)
    {
      WalkNext(asc, j);
      victims, keptCount, v := Consider(runs[i], victims, keptCount, done, v, walked);
      j := j + 1;
      walked := |DoneUpTo(asc, j)|;
      i := i - 1;
    }
    if i < 0 { DoneUpToIs(asc, j); }
    DropEnd(n, v, |done|, maxRecords, i, walked, keptCount);
  }

  lemma DropEnd(n: nat, v: nat, total: nat, maxRecords: nat, i: int, walked: nat, kept: int)
    requires n <= total && walked <= v <= total && kept == total - v
    requires (kept <= maxRecords || i < 0) && (i < 0 ==> walked == total)
    requires v == n || (v == walked && v > n && kept >= maxRecords)
    ensures v == Max(n, total - maxRecords)
  {
  }

  /** The body of the walk: skip running runs and runs that are victims. */
  method Consider(run: Run, victims: set<string>, kept: int, ghost done: seq<Run>, ghost v: nat, ghost walked: nat)
    returns (victims': set<string>, kept': int, ghost v': nat)
    requires DistinctIds(done) && Dropped(done, v, victims, kept)
    requires run.Completed() ==> walked < |done| && walked <= v && done[walked] == run
    ensures Dropped(done, v', victims', kept') && kept' == kept - (v' - v)
    ensures v' == if run.Completed() && walked == v then v + 1 else v
  {
    victims', kept', v' := victims, kept, v;
    if run.status == Running {
      return;
    }
    CountStep(done, v, walked, victims, kept);
    if run.id in victims {
      return;
    }
    victims' := victims + {run.id};
    kept' := kept - 1;
    v' := v + 1;
  }

  /** The first `v` completed runs are the victims, the others are kept. */
  ghost predicate Dropped(done: seq<Run>, v: int, victims: set<string>, kept: int) {
    0 <= v <= |done| && kept == |done| - v && victims == Ids(done[..v])
  }

  /** The next run of the walk, when completed, is the next completed run. */
  lemma WalkNext(asc: seq<Run>, j: nat)
    requires j < |asc|
    ensures var walked := |DoneUpTo(asc, j)|;
      && |DoneUpTo(asc, j + 1)| == walked + (if asc[j].Completed() then 1 else 0) <= |Done(asc)|
      && (asc[j].Completed() ==> Done(asc)[walked] == asc[j])
  {
    DoneUpToIs(asc, j);
    DoneUpToIs(asc, j + 1);
    DonePrefix(asc, j);
  }

  /** `pruneRuns`: sort, choose the victims by age, then drop the oldest of the
      rest until the record limit is met. */
  method ScanSortPrune(stored: seq<Run>, retention: Retention, now: int)
    returns (result: PruneResult, victims: set<string>, ghost asc: seq<Run>)
    requires DistinctIds(stored)
    ensures OldestFirst(asc) && multiset(Reversed(asc)) == multiset(stored)
    ensures victims == Victims(asc, retention, now)
    ensures result == Report(asc, retention, now)
  {
    var runs := SortNewestFirst(stored);
    asc := Reversed(runs);
    SortedFacts(stored, runs);
    victims := VictimsByAge(runs, retention, now);
    victims := VictimsByCount(runs, victims, retention, now);
    VictimFacts(asc, retention, now);
    var kept := RetainedCompletedRunCount(runs, victims);
    result := PruneResult(|victims|, kept);
  }

  lemma VictimFacts(asc: seq<Run>, retention: Retention, now: int)
    requires DistinctIds(Done(asc))
    ensures |Victims(asc, retention, now)| == Report(asc, retention, now).deleted
    ensures |Without(Done(asc), Victims(asc, retention, now))| == Report(asc, retention, now).kept
  {
    var n := VictimCount(Done(asc), retention, now);
    WithoutPrefix(Done(asc), n);
    IdsSize(Done(asc)[..n]);
  }

  /** A completed run is already a victim, or becomes the next one. */
  lemma CountStep(done: seq<Run>, v: nat, walked: nat, victims: set<string>, kept: int)
    requires DistinctIds(done) && walked < |done| && walked <= v && Dropped(done, v, victims, kept)
    ensures done[walked].id in victims <==> walked < v
    ensures walked == v ==> Dropped(done, v + 1, victims + {done[walked].id}, kept - 1)
  {
    VictimSoFar(done, v, walked);
  }

  lemma VictimSoFar(done: seq<Run>, v: nat, at: nat)
    requires DistinctIds(done) && v <= |done| && at < |done|
    ensures done[at].id in Ids(done[..v]) <==> at < v
    ensures at == v ==> Ids(done[..v + 1]) == Ids(done[..v]) + {done[at].id}
  {
    if at < v { assert done[..v][at] == done[at]; }
    if at == v { IdsAppend(done[..v], done[v]); assert done[..v + 1] == done[..v] + [done[v]]; }
  }

  lemma SortedFacts(stored: seq<Run>, runs: seq<Run>)
    requires DistinctIds(stored) && multiset(runs) == multiset(stored) && NewestFirst(runs)
    ensures var asc := Reversed(runs);
      Reversed(asc) == runs && OldestFirst(asc) && DistinctIds(asc) && DistinctIds(Done(asc))
  {
    assert Reversed(Reversed(runs)) == runs;
    StillDistinct(stored, runs);
    DoneSorted(Reversed(runs));
  }

  lemma StillDistinct(stored: seq<Run>, runs: seq<Run>)
    requires DistinctIds(stored) && multiset(runs) == multiset(stored)
    ensures DistinctIds(Reversed(runs))
  {
    forall i, j | 0 <= i < j < |runs| ensures runs[i].id != runs[j].id {
      assert runs[i] in multiset(runs) && runs[j] in multiset(runs);
      assert runs[i] in stored && runs[j] in stored;
      if runs[i].id == runs[j].id {
        SharedCount(runs, i, j);
        AtMostOnce(stored, runs[i]);
      }
    }
  }

  /** What a scan over all runs of a map enumerates and retains. */
  lemma ScanOutcome(stored: seq<Run>, asc: seq<Run>, m: RunMap, retention: Retention, now: int)
    requires Enumerates(stored, m) && OldestFirst(asc) && multiset(Reversed(asc)) == multiset(stored)
    ensures Enumerates(asc, m) && Retains(m, m - Victims(asc, retention, now), retention, now, false)
  {
    assert NewestFirst(Reversed(asc)) && Reversed(Reversed(asc)) == asc;
    SortedEnumerates(stored, Reversed(asc), m);
    PruneRetains(asc, m, retention, now);
  }

  /** A sorted listing of all runs is some enumeration backwards. */
  lemma ScanBackwards(values: seq<Run>, sorted: seq<Run>, m: RunMap) returns (asc: seq<Run>)
    requires Enumerates(values, m) && multiset(sorted) == multiset(values) && NewestFirst(sorted)
    ensures Enumerates(asc, m) && OldestFirst(asc) && Reversed(asc) == sorted
  {
    asc := Reversed(sorted);
    SortedEnumerates(values, sorted, m);
    assert Reversed(asc) == sorted;
  }

  class MemoryStore {
    var runs: RunMap

    ghost predicate Valid()
      reads this
    {
      Keyed(runs)
    }

    constructor ()
      ensures Valid() && runs == map[]
    {
      runs := map[];
    }

    method SaveRun(run: Run)
      requires Valid()
      modifies this
      ensures Valid() && runs == old(runs)[run.id := run]
    {
      runs := runs[run.id := run];
    }

    method UpdateRun(run: Run)
      requires Valid()
      modifies this
      ensures Valid() && runs == old(runs)[run.id := run]
    {
      SaveRun(run);
    }

    /** The map's runs in the order Go happens to iterate. */
    method Values() returns (values: seq<Run>)
      requires Valid()
      ensures Enumerates(values, runs)
    {
      values := [];
      var rest := runs.Keys;
      while rest != {}
        invariant rest <= runs.Keys
        invariant DistinctIds(values)
        invariant forall i :: 0 <= i < |values| ==> values[i].id in runs.Keys - rest && runs[values[i].id] == values[i]
        invariant forall id :: id in runs.Keys - rest ==> id in Ids(values)
        decreases |rest|
      {
        var id :| id in rest;
        ghost var seen := values;
        rest := rest - {id};
        values := values + [runs[id]];
        assert forall o :: o in Ids(seen) ==> o in Ids(values) by {
          forall o | o in Ids(seen) ensures o in Ids(values) {
            var i :| 0 <= i < |seen| && seen[i].id == o;
            assert values[i].id == o;
          }
        }
        assert values[|seen|].id == id;
      }
    }

    method ListRuns(limit: int) returns (listed: seq<Run>)
      requires Valid()
      ensures exists asc :: Enumerates(asc, runs) && OldestFirst(asc) && listed == Trim(Reversed(asc), limit)
      ensures |listed| == if limit <= 0 || |runs| < limit then |runs| else limit
      ensures forall i :: 0 <= i < |listed| ==> listed[i].id in runs && runs[listed[i].id] == listed[i]
      ensures forall i, j :: 0 <= i < j < |listed| ==>
                listed[i].id != listed[j].id && listed[i].startedAt >= listed[j].startedAt
      ensures forall id, i :: id in runs && id !in Ids(listed) && 0 <= i < |listed| ==>
                runs[id].startedAt <= listed[i].startedAt
    {
      var values := Values();
      var sorted := SortNewestFirst(values);
      listed := Trim(sorted, limit);
      ghost var asc := ScanBackwards(values, sorted, runs);
      ListMeans(asc, runs, limit, listed);
      ListOrder(asc, listed);
    }

    method ClearRuns()
      requires Valid()
      modifies this
      ensures Valid() && runs == map[]
    {
      runs := map[];
    }

    method PruneRuns(retention: Retention, now: int) returns (result: PruneResult)
      requires Valid()
      modifies this
      ensures Valid()
      ensures exists asc :: Enumerates(asc, old(runs)) && OldestFirst(asc)
                            && runs == old(runs) - Victims(asc, retention, now) && result == Report(asc, retention, now)
      ensures Retains(old(runs), runs, retention, now, false)
      ensures retention.maxAgeDays > 0 ==>
                forall id :: (id in old(runs) && old(runs)[id].status != Running
                              && old(runs)[id].startedAt < now - retention.maxAgeDays * 86_400_000_000_000)
                             ==> id !in runs
      ensures retention.maxRecords <= 0 ==>
                forall id :: id in old(runs) && id !in runs ==>
                  old(runs)[id].status != Running && retention.maxAgeDays > 0
                  && old(runs)[id].startedAt < now - retention.maxAgeDays * 86_400_000_000_000
      ensures result.kept + |set id | id in runs && runs[id].status == Running| == |runs|
      ensures result.deleted + |runs| == |old(runs)|
    {
      ghost var before := runs;
      var stored := Values();
      var victims;
      ghost var asc;
      result, victims, asc := ScanSortPrune(stored, retention, now);
      ScanOutcome(stored, asc, runs, retention, now);
      ReportMeans(asc, runs, retention, now);
      runs := runs - victims;
      PruneByAge(before, runs, retention, now, false);
    }

    method HasRunningRun(scheduleName: string) returns (running: bool)
      requires Valid()
      ensures running == HasRunning(runs, scheduleName)
      ensures running <==>
                exists id :: id in runs && runs[id].status == Running && runs[id].scheduleName == scheduleName
    {
      var rest := runs.Keys;
      while rest != {}
        invariant rest <= runs.Keys
        invariant forall id :: id in runs.Keys - rest ==>
                    !(runs[id].status == Running && runs[id].scheduleName == scheduleName)
        decreases |rest|
      {
        var id :| id in rest;
        if runs[id].scheduleName == scheduleName && runs[id].status == Running {
          return true;
        }
        rest := rest - {id};
      }
      return false;
    }

    /** Any request of the `Store` interface. */
    method Serve(request: Request) returns (answer: Answer)
      requires Valid()
      modifies this
      ensures Valid() && Scanned(old(runs), request, runs, answer)
    {
      match request {
        case SaveRun(run) => SaveRun(run); answer := Ok;
        case UpdateRun(run) => UpdateRun(run); answer := Ok;
        case ClearRuns => ClearRuns(); answer := Ok;
        case PruneRuns(retention, now) => var result := PruneRuns(retention, now); answer := Pruned(result);
        case ListRuns(limit) => var listed := ListRuns(limit); answer := Listed(listed);
        case HasRunningRun(name) => var running := HasRunningRun(name); answer := Found(running);
      }
    }

    /** A whole history of requests. */
    method ServeAll(requests: seq<Request>) returns (answers: seq<Answer>)
      requires Valid()
      modifies this
      ensures Valid() && |answers| == |requests|
      ensures ScanHistory(old(runs), requests, answers, runs)
      decreases |requests|
    {
      if requests == [] {
        return [];
      }
      var first := Serve(requests[0]);
      var rest := ServeAll(requests[1..]);
      answers := [first] + rest;
      assert answers[1..] == rest;
    }
  }
}
