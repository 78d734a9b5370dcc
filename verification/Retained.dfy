/** What a prune keeps, said without sorting, and that sorting computes it. */
module Retained {
  import opened Lex
  import opened Runs

  /** Not past the age limit. */
  predicate Fresh(r: Run, retention: Retention, now: int) {
    retention.maxAgeDays <= 0 || r.startedAt >= Cutoff(retention, now)
  }

  function FreshIds(m: RunMap, retention: Retention, now: int): set<string> {
    set id | id in m && m[id].Completed() && Fresh(m[id], retention, now)
  }

  function Min(a: int, b: int): int {
    if a <= b then a else b
  }

  /** How many completed runs survive: all fresh ones, or the record limit. */
  function KeepCount(m: RunMap, retention: Retention, now: int): nat {
    var young := |FreshIds(m, retention, now)|;
    if retention.maxRecords > 0 then Min(retention.maxRecords, young) else young
  }

  /** `a` may be dropped while `b` is kept. */
  predicate DropsFirst(a: Run, b: Run, tiesById: bool) {
    if tiesById then Earlier(a, b) else a.startedAt <= b.startedAt
  }

  predicate SubMap(kept: RunMap, m: RunMap) {
    forall id :: id in kept ==> id in m && kept[id] == m[id]
  }

  /** `kept` is `m` with every running run, and with the newest `KeepCount`
      completed runs, all of them fresh. */
  predicate Retains(m: RunMap, kept: RunMap, retention: Retention, now: int, tiesById: bool) {
    && SubMap(kept, m)
    && (forall id :: id in m && m[id].status == Running ==> id in kept)
    && CompletedIds(kept) <= FreshIds(m, retention, now)
    && |CompletedIds(kept)| == KeepCount(m, retention, now)
    && (forall d, k :: d in m && m[d].Completed() && d !in kept && k in kept && m[k].Completed()
                       ==> DropsFirst(m[d], m[k], tiesById))
  }

  /** The age limit takes exactly the first completed runs. */
  lemma AgedAreStale(asc: seq<Run>, retention: Retention, now: int)
    requires OldestFirst(asc)
    ensures forall i :: 0 <= i < |Done(asc)| ==>
              (Fresh(Done(asc)[i], retention, now) <==> AgeVictims(Done(asc), retention, now) <= i)
  {
    DoneSorted(asc);
    ExpiredPrefix(Done(asc), Cutoff(retention, now));
  }

  lemma FreshIffKept(asc: seq<Run>, m: RunMap, retention: Retention, now: int, id: string)
    requires Enumerates(asc, m) && OldestFirst(asc) && id in CompletedIds(m)
    ensures Fresh(m[id], retention, now) <==> id !in Ids(Done(asc)[..AgeVictims(Done(asc), retention, now)])
  {
    var i := DoneIndex(asc, m, id);
    AgedAreStale(asc, retention, now);
  }

  lemma FreshCount(asc: seq<Run>, m: RunMap, retention: Retention, now: int)
    requires Enumerates(asc, m) && OldestFirst(asc)
    ensures |FreshIds(m, retention, now)| == |Done(asc)| - AgeVictims(Done(asc), retention, now)
  {
    var gone := Ids(Done(asc)[..AgeVictims(Done(asc), retention, now)]);
    SurvivorIds(asc, m, AgeVictims(Done(asc), retention, now));
    forall id | id in CompletedIds(m) ensures id !in gone <==> Fresh(m[id], retention, now) {
      FreshIffKept(asc, m, retention, now, id);
    }
    assert FreshIds(m, retention, now) == CompletedIds(m - gone);
  }

  /** Where a completed run of the map stands in the sequence. */
  lemma DoneIndex(asc: seq<Run>, m: RunMap, id: string) returns (i: nat)
    requires Enumerates(asc, m) && id in CompletedIds(m)
    ensures i < |Done(asc)| && Done(asc)[i].id == id && Done(asc)[i] == m[id]
    ensures forall n :: 0 <= n <= |Done(asc)| ==> (id in Ids(Done(asc)[..n]) <==> i < n)
  {
    DoneOf(asc, m);
    assert id in Ids(Done(asc));
    i :| 0 <= i < |Done(asc)| && Done(asc)[i].id == id;
    forall n | 0 <= n <= |Done(asc)| ensures id in Ids(Done(asc)[..n]) <==> i < n {
      if i < n { assert Done(asc)[..n][i].id == id; }
    }
  }

  /** The counts a prune reports do not depend on how ties are sorted. */
  lemma ReportIsCounts(asc: seq<Run>, m: RunMap, retention: Retention, now: int)
    requires Enumerates(asc, m) && OldestFirst(asc)
    ensures Report(asc, retention, now).kept == KeepCount(m, retention, now)
    ensures Report(asc, retention, now).kept + Report(asc, retention, now).deleted == |CompletedIds(m)|
  {
    FreshCount(asc, m, retention, now);
    DoneOf(asc, m);
  }

  /** After the first `n` completed runs are removed, the others are left. */
  lemma SurvivorIds(asc: seq<Run>, m: RunMap, n: nat)
    requires Enumerates(asc, m) && n <= |Done(asc)|
    ensures |CompletedIds(m - Ids(Done(asc)[..n]))| == |Done(asc)| - n
  {
    var gone := Ids(Done(asc)[..n]);
    WithoutEnumerates(asc, m, gone);
    DoneWithout(asc, n);
    DoneOf(Without(asc, gone), m - gone);
  }

  lemma VictimsCompleted(asc: seq<Run>, m: RunMap, n: nat)
    requires Enumerates(asc, m) && n <= |Done(asc)|
    ensures Ids(Done(asc)[..n]) <= CompletedIds(m)
  {
    DoneOf(asc, m);
    IdsConcat(Done(asc)[..n], Done(asc)[n..]);
    assert Done(asc) == Done(asc)[..n] + Done(asc)[n..];
  }

  /** Dropping the victims of any sorted listing retains the right runs; when
      the listing breaks ties by id, so does the prune. */
  lemma PruneRetains(asc: seq<Run>, m: RunMap, retention: Retention, now: int)
    requires Enumerates(asc, m) && OldestFirst(asc)
    ensures Retains(m, m - Victims(asc, retention, now), retention, now, false)
    ensures Chronological(asc) ==> Retains(m, m - Victims(asc, retention, now), retention, now, true)
  {
    var n := VictimCount(Done(asc), retention, now);
    var kept := m - Victims(asc, retention, now);
    SurvivorIds(asc, m, n);
    VictimsCompleted(asc, m, n);
    ReportIsCounts(asc, m, retention, now);
    forall id | id in CompletedIds(kept) ensures id in FreshIds(m, retention, now) {
      var i := DoneIndex(asc, m, id);
      assert i >= n;
      AgedAreStale(asc, retention, now);
    }
    forall d, k | d in m && m[d].Completed() && d !in kept && k in kept && m[k].Completed()
      ensures m[d].startedAt <= m[k].startedAt
      ensures Chronological(asc) ==> Earlier(m[d], m[k])
    {
      CutInOrder(asc, m, n, d, k);
    }
  }

  /** A completed run before the cut is older than one after it. */
  lemma CutInOrder(asc: seq<Run>, m: RunMap, n: nat, d: string, k: string)
    requires Enumerates(asc, m) && OldestFirst(asc) && n <= |Done(asc)|
    requires d in CompletedIds(m) && k in CompletedIds(m)
    requires d in Ids(Done(asc)[..n]) && k !in Ids(Done(asc)[..n])
    ensures m[d].startedAt <= m[k].startedAt
    ensures Chronological(asc) ==> Earlier(m[d], m[k])
  {
    DoneSorted(asc);
    var i := DoneIndex(asc, m, d);
    var j := DoneIndex(asc, m, k);
    assert i < n <= j;
  }

  /** With ties broken by id there is only one right answer. */
  lemma RetainsUnique(m: RunMap, a: RunMap, b: RunMap, retention: Retention, now: int)
    requires Retains(m, a, retention, now, true) && Retains(m, b, retention, now, true)
    ensures a == b
  {
    var x, y := CompletedIds(a), CompletedIds(b);
    if x != y {
      SameSizeDiffers(x, y);
      var p :| p in x - y;
      var q :| q in y - x;
      assert Earlier(m[q], m[p]) && Earlier(m[p], m[q]);
      EarlierAsymmetric(m[p], m[q]);
    }
    forall id | id in a ensures id in b { if m[id].Completed() { assert id in x; } }
    forall id | id in b ensures id in a { if m[id].Completed() { assert id in y; } }
  }

  lemma SameSizeDiffers(x: set<string>, y: set<string>)
    requires |x| == |y| && x != y
    ensures x - y != {} && y - x != {}
  {
    assert x == x * y + (x - y) && y == x * y + (y - x);
    assert |x - y| == |y - x|;
  }

  /** A second prune with the same limits and clock deletes nothing, whatever
      order either prune sorts ties in. */
  lemma PruneTwice(m: RunMap, kept: RunMap, asc: seq<Run>, retention: Retention, now: int)
    requires Retains(m, kept, retention, now, false)
    requires Enumerates(asc, kept) && OldestFirst(asc)
    ensures Victims(asc, retention, now) == {} && Report(asc, retention, now).deleted == 0
  {
    assert FreshIds(kept, retention, now) == CompletedIds(kept);
    ReportIsCounts(asc, kept, retention, now);
  }

  // ------------------------------------------------------- in plain numbers

  /** What a prune does to a run, with a day as nanoseconds: a completed run past
      the age limit goes, and without a record limit nothing else does; running
      runs stay, and a run that stays is unchanged. */
  lemma PruneByAge(m: RunMap, kept: RunMap, retention: Retention, now: int, tiesById: bool)
    requires Retains(m, kept, retention, now, tiesById)
    ensures retention.maxAgeDays > 0 ==>
              forall id :: (id in m && m[id].status != Running
                            && m[id].startedAt < now - retention.maxAgeDays * 86_400_000_000_000) ==> id !in kept
    ensures retention.maxRecords <= 0 ==>
              forall id :: id in m && id !in kept ==>
                m[id].status != Running && retention.maxAgeDays > 0
                && m[id].startedAt < now - retention.maxAgeDays * 86_400_000_000_000
    ensures forall id :: id in m && m[id].status == Running ==> id in kept
    ensures forall id :: id in kept ==> id in m && kept[id] == m[id]
  {
    assert SubMap(kept, m);
    forall id | id in kept && m[id].Completed() ensures Fresh(m[id], retention, now) {
      assert id in CompletedIds(kept);
    }
    if retention.maxRecords <= 0 {
      AllFreshKept(m, kept, retention, now, tiesById);
    }
  }

  lemma AllFreshKept(m: RunMap, kept: RunMap, retention: Retention, now: int, tiesById: bool)
    requires Retains(m, kept, retention, now, tiesById) && |CompletedIds(kept)| == |FreshIds(m, retention, now)|
    ensures forall id :: id in m && m[id].Completed() && Fresh(m[id], retention, now) ==> id in kept
  {
    var a, b := CompletedIds(kept), FreshIds(m, retention, now);
    if a != b { SameSizeDiffers(a, b); }
    forall id | id in b ensures id in kept { assert id in a; }
  }

  /** What the record limit does: no more completed runs than the limit stay, and
      one within the age limit goes only when the limit is reached, and then all
      the completed runs that stay are at least as new; among equal start times
      the greater ids stay, when ties are broken by id. */
  lemma PruneByCount(m: RunMap, kept: RunMap, retention: Retention, now: int, tiesById: bool, d: string)
    requires Retains(m, kept, retention, now, tiesById) && retention.maxRecords > 0
    ensures |set id | id in kept && kept[id].status != Running| <= retention.maxRecords
    ensures d in m && d !in kept
            && (retention.maxAgeDays <= 0 || m[d].startedAt >= now - retention.maxAgeDays * 86_400_000_000_000)
            ==> && |set id | id in kept && kept[id].status != Running| == retention.maxRecords
                && forall k :: k in kept && kept[k].status != Running ==>
                     && m[d].startedAt <= kept[k].startedAt
                     && (tiesById && m[d].startedAt == kept[k].startedAt ==> Less(m[d].id, kept[k].id))
  {
    assert SubMap(kept, m);
    assert (set id | id in kept && kept[id].status != Running) == CompletedIds(kept);
    if d in m && d !in kept && Fresh(m[d], retention, now)
       && |CompletedIds(kept)| == |FreshIds(m, retention, now)| {
      AllFreshKept(m, kept, retention, now, tiesById);
    }
  }

  /** What a prune reports: how many completed runs are left, and how many runs
      are gone. */
  lemma ReportMeans(asc: seq<Run>, m: RunMap, retention: Retention, now: int)
    requires Enumerates(asc, m) && OldestFirst(asc)
    ensures var kept, r := m - Victims(asc, retention, now), Report(asc, retention, now);
      && r.kept == |set id | id in kept && kept[id].status != Running|
      && r.kept + |set id | id in kept && kept[id].status == Running| == |kept|
      && r.deleted + |kept| == |m|
  {
    var kept := m - Victims(asc, retention, now);
    PruneRetains(asc, m, retention, now);
    ReportIsCounts(asc, m, retention, now);
    RunningStay(m, kept, retention, now);
    SizeSplit(m);
    SizeSplit(kept);
  }

  lemma RunningStay(m: RunMap, kept: RunMap, retention: Retention, now: int)
    requires Retains(m, kept, retention, now, false)
    ensures (set id | id in kept && kept[id].status == Running) == (set id | id in m && m[id].status == Running)
  {
    assert SubMap(kept, m);
  }

  lemma SizeSplit(m: RunMap)
    ensures CompletedIds(m) == set id | id in m && m[id].status != Running
    ensures |CompletedIds(m)| + |set id | id in m && m[id].status == Running| == |m|
  {
    var running := set id | id in m && m[id].status == Running;
    assert CompletedIds(m) !! running && m.Keys == CompletedIds(m) + running;
  }
}
