/** Run records, their order in time, and what a prune of the run log means. */
module Runs {
  import opened Lex
  import TimeKey

  datatype Status = Running | Succeeded | Failed | Skipped

  /** A run record; `detail` stands for the fields the store never looks at. */
  datatype Run = Run(id: string, scheduleName: string, status: Status, startedAt: int, detail: string) {
    predicate Completed() {
      status != Running
    }
  }

  datatype Retention = Retention(maxRecords: int, maxAgeDays: int)

  datatype PruneResult = PruneResult(deleted: nat, kept: nat)

  type RunMap = map<string, Run>

  predicate Keyed(m: RunMap) {
    forall id :: id in m ==> m[id].id == id
  }

  function CompletedIds(m: RunMap): set<string> {
    set id | id in m && m[id].Completed()
  }

  // ------------------------------------------------------- runs in a sequence

  function Ids(s: seq<Run>): set<string> {
    set i | 0 <= i < |s| :: s[i].id
  }

  predicate DistinctIds(s: seq<Run>) {
    forall i, j :: 0 <= i < j < |s| ==> s[i].id != s[j].id
  }

  /** `s` lists every run of `m` once. */
  predicate Enumerates(s: seq<Run>, m: RunMap) {
    && DistinctIds(s)
    && (forall i :: 0 <= i < |s| ==> s[i].id in m && m[s[i].id] == s[i])
    && (forall id :: id in m ==> id in Ids(s))
  }

  /** Sorted by start time, ties in any order. */
  predicate OldestFirst(s: seq<Run>) {
    forall i, j :: 0 <= i < j < |s| ==> s[i].startedAt <= s[j].startedAt
  }

  /** Sorted by start time, ties by id. */
  predicate Earlier(a: Run, b: Run) {
    a.startedAt < b.startedAt || (a.startedAt == b.startedAt && Less(a.id, b.id))
  }

  predicate Chronological(s: seq<Run>) {
    forall i, j :: 0 <= i < j < |s| ==> Earlier(s[i], s[j])
  }

  /** The completed runs of `s`, in order. */
  function Done(s: seq<Run>): (d: seq<Run>)
    ensures |d| <= |s|
  {
    if s == [] then [] else (if s[0].Completed() then [s[0]] else []) + Done(s[1..])
  }

  function ExpiredCount(s: seq<Run>, cutoff: int): (n: nat)
    ensures n <= |s|
  {
    if s == [] then 0 else (if s[0].startedAt < cutoff then 1 else 0) + ExpiredCount(s[1..], cutoff)
  }

  function Reversed(s: seq<Run>): (r: seq<Run>)
    ensures |r| == |s| && forall i :: 0 <= i < |s| ==> r[i] == s[|s| - 1 - i]
  {
    seq(|s|, i requires 0 <= i < |s| => s[|s| - 1 - i])
  }

  /** `trimRuns`: a limit of zero or less means no limit. */
  function Trim(s: seq<Run>, limit: int): seq<Run> {
    if limit <= 0 || limit > |s| then s else s[..limit]
  }

  // ------------------------------------------------------------------ pruning

  function Cutoff(retention: Retention, now: int): int {
    now - retention.maxAgeDays * TimeKey.DAY
  }

  function Max(a: int, b: int): int {
    if a >= b then a else b
  }

  /** How many of the completed runs, oldest first, the age limit removes. */
  function AgeVictims(done: seq<Run>, retention: Retention, now: int): (n: nat)
    ensures n <= |done|
  {
    if retention.maxAgeDays > 0 then ExpiredCount(done, Cutoff(retention, now)) else 0
  }

  /** How many of the completed runs, oldest first, both limits remove. */
  function VictimCount(done: seq<Run>, retention: Retention, now: int): (n: nat)
    ensures n <= |done|
  {
    var aged := AgeVictims(done, retention, now);
    if retention.maxRecords > 0 then Max(aged, |done| - retention.maxRecords) else aged
  }

  function Victims(asc: seq<Run>, retention: Retention, now: int): set<string> {
    Ids(Done(asc)[..VictimCount(Done(asc), retention, now)])
  }

  function Report(asc: seq<Run>, retention: Retention, now: int): PruneResult {
    var n := VictimCount(Done(asc), retention, now);
    PruneResult(n, |Done(asc)| - n)
  }

  // ------------------------------------------------------- lemmas on sequences

  lemma {:induction false} DoneConcat(s: seq<Run>, t: seq<Run>)
    ensures Done(s + t) == Done(s) + Done(t)
  {
    if s == [] {
      assert s + t == t;
    } else {
      var h := if s[0].Completed() then [s[0]] else [];
      assert (s + t)[0] == s[0] && (s + t)[1..] == s[1..] + t;
      DoneConcat(s[1..], t);
      assert Done(s + t) == h + (Done(s[1..]) + Done(t));
    }
  }

  /** A prefix of the runs has a prefix of the completed runs; the next run,
      when completed, is the next completed run. */
  lemma DonePrefix(s: seq<Run>, i: nat)
    requires i <= |s|
    ensures |Done(s[..i])| <= |Done(s)| && Done(s[..i]) == Done(s)[..|Done(s[..i])|]
    ensures i < |s| ==> Done(s[..i + 1]) == Done(s[..i]) + (if s[i].Completed() then [s[i]] else [])
    ensures i < |s| && s[i].Completed() ==> |Done(s[..i])| < |Done(s)| && Done(s)[|Done(s[..i])|] == s[i]
  {
    assert s == s[..i] + s[i..];
    DoneConcat(s[..i], s[i..]);
    if i < |s| {
      assert s[..i + 1] == s[..i] + [s[i]];
      DoneConcat(s[..i], [s[i]]);
      assert Done([s[i]]) == if s[i].Completed() then [s[i]] else [];
    }
  }

  /** The completed runs among the first `i`, as a scan collects them. */
  function DoneUpTo(s: seq<Run>, i: nat): seq<Run>
    requires i <= |s|
  {
    if i == 0 then [] else DoneUpTo(s, i - 1) + (if s[i - 1].Completed() then [s[i - 1]] else [])
  }

  lemma {:induction false} DoneUpToIs(s: seq<Run>, i: nat)
    requires i <= |s|
    ensures DoneUpTo(s, i) == Done(s[..i])
    ensures |DoneUpTo(s, i)| <= |Done(s)| && DoneUpTo(s, i) == Done(s)[..|DoneUpTo(s, i)|]
    ensures i == |s| ==> DoneUpTo(s, i) == Done(s)
  {
    if i > 0 {
      DoneUpToIs(s, i - 1);
      DonePrefix(s, i - 1);
    }
    DonePrefix(s, i);
    if i == |s| { assert s[..i] == s; }
  }

  /** Completed runs keep their relative order; nothing else is listed. */
  lemma {:induction false} DoneMembers(s: seq<Run>)
    ensures forall i :: 0 <= i < |Done(s)| ==> Done(s)[i] in s && Done(s)[i].Completed()
    ensures forall r :: r in s && r.Completed() ==> r in Done(s)
  {
    if s != [] {
      DoneMembers(s[1..]);
      forall r | r in s && r.Completed() ensures r in Done(s) {
        if r != s[0] { assert r in s[1..]; }
      }
    }
  }

  lemma {:induction false} DonePairwise(s: seq<Run>, rel: (Run, Run) -> bool)
    requires forall i, j :: 0 <= i < j < |s| ==> rel(s[i], s[j])
    ensures forall i, j :: 0 <= i < j < |Done(s)| ==> rel(Done(s)[i], Done(s)[j])
  {
    if s != [] {
      var d := Done(s[1..]);
      DonePairwise(s[1..], rel);
      DoneMembers(s[1..]);
      forall j | 0 <= j < |d| ensures rel(s[0], d[j]) {
        var k :| 0 <= k < |s[1..]| && s[1..][k] == d[j];
        assert s[k + 1] == d[j];
      }
    }
  }

  lemma DoneSorted(s: seq<Run>)
    ensures DistinctIds(s) ==> DistinctIds(Done(s))
    ensures OldestFirst(s) ==> OldestFirst(Done(s))
    ensures Chronological(s) ==> Chronological(Done(s))
  {
    if DistinctIds(s) { DonePairwise(s, (a: Run, b: Run) => a.id != b.id); }
    if OldestFirst(s) { DonePairwise(s, (a: Run, b: Run) => a.startedAt <= b.startedAt); }
    if Chronological(s) { DonePairwise(s, Earlier); }
  }

  lemma IdsAppend(s: seq<Run>, r: Run)
    ensures Ids(s + [r]) == Ids(s) + {r.id}
  {
    IdsConcat(s, [r]);
    assert Ids([r]) == {r.id} by { assert [r][0] == r; }
  }

  lemma IdsConcat(s: seq<Run>, t: seq<Run>)
    ensures Ids(s + t) == Ids(s) + Ids(t)
  {
    forall id | id in Ids(s) ensures id in Ids(s + t) {
      var i :| 0 <= i < |s| && s[i].id == id;
      assert (s + t)[i] == s[i];
    }
    forall id | id in Ids(t) ensures id in Ids(s + t) {
      var i :| 0 <= i < |t| && t[i].id == id;
      assert (s + t)[|s| + i] == t[i];
    }
  }

  lemma {:induction false} IdsSize(s: seq<Run>)
    requires DistinctIds(s)
    ensures |Ids(s)| == |s|
  {
    if s != [] {
      var t := s[..|s| - 1];
      IdsSize(t);
      assert Ids(s) == Ids(t) + {s[|t|].id};
      assert s[|t|].id !in Ids(t);
    }
  }

  /** In time order the expired runs are a prefix. */
  lemma {:induction false} ExpiredPrefix(s: seq<Run>, cutoff: int)
    requires OldestFirst(s)
    ensures forall i :: 0 <= i < |s| ==> (s[i].startedAt < cutoff <==> i < ExpiredCount(s, cutoff))
  {
    if s != [] {
      ExpiredPrefix(s[1..], cutoff);
      if s[0].startedAt >= cutoff && |s| > 1 {
        assert s[1..][0].startedAt >= cutoff;
      }
    }
  }

  lemma ChronologicalOldestFirst(s: seq<Run>)
    requires Chronological(s)
    ensures OldestFirst(s)
  {
  }

  /** What an enumeration knows about the completed runs of its map. */
  lemma DoneOf(s: seq<Run>, m: RunMap)
    requires Enumerates(s, m)
    ensures DistinctIds(Done(s)) && Ids(Done(s)) == CompletedIds(m) && |Done(s)| == |CompletedIds(m)|
    ensures forall i :: 0 <= i < |Done(s)| ==> Done(s)[i].id in m && m[Done(s)[i].id] == Done(s)[i]
  {
    DoneSorted(s);
    DoneStored(s, m);
    DoneComplete(s, m);
    IdsSize(Done(s));
  }

  lemma DoneStored(s: seq<Run>, m: RunMap)
    requires Enumerates(s, m)
    ensures forall i :: 0 <= i < |Done(s)| ==> Done(s)[i].id in CompletedIds(m) && m[Done(s)[i].id] == Done(s)[i]
  {
    DoneMembers(s);
    forall i | 0 <= i < |Done(s)| ensures Done(s)[i].id in CompletedIds(m) && m[Done(s)[i].id] == Done(s)[i] {
      var k :| 0 <= k < |s| && s[k] == Done(s)[i];
    }
  }

  lemma DoneComplete(s: seq<Run>, m: RunMap)
    requires Enumerates(s, m)
    ensures forall id :: id in CompletedIds(m) ==> id in Ids(Done(s))
  {
    DoneMembers(s);
    forall id | id in CompletedIds(m) ensures id in Ids(Done(s)) {
      var i :| 0 <= i < |s| && s[i].id == id;
      var k :| 0 <= k < |Done(s)| && Done(s)[k] == s[i];
    }
  }

  // ---------------------------------------------------- the order in time is one

  lemma EarlierTotal(a: Run, b: Run)
    requires a.id != b.id
    ensures Earlier(a, b) || Earlier(b, a)
  {
    Total(a.id, b.id);
  }

  lemma EarlierAsymmetric(a: Run, b: Run)
    requires Earlier(a, b)
    ensures !Earlier(b, a) && a != b
  {
    if a.startedAt == b.startedAt { Asymmetric(a.id, b.id); }
  }

  lemma EarlierTransitive(a: Run, b: Run, c: Run)
    requires Earlier(a, b) && Earlier(b, c)
    ensures Earlier(a, c)
  {
    if a.startedAt == b.startedAt == c.startedAt { Transitive(a.id, b.id, c.id); }
  }

  /** Insertion at the place time order gives. */
  function Insert(r: Run, s: seq<Run>): seq<Run> {
    if s == [] || Earlier(r, s[0]) then [r] + s else [s[0]] + Insert(r, s[1..])
  }

  lemma {:induction false} InsertMembers(r: Run, s: seq<Run>)
    ensures forall x :: x in Insert(r, s) <==> x == r || x in s
  {
    if s != [] {
      InsertMembers(r, s[1..]);
      assert s == [s[0]] + s[1..];
    }
  }

  lemma {:induction false} InsertSorted(r: Run, s: seq<Run>)
    requires Chronological(s) && DistinctIds(s) && r.id !in Ids(s)
    ensures Chronological(Insert(r, s)) && DistinctIds(Insert(r, s))
  {
    if s != [] {
      if Earlier(r, s[0]) {
        forall j | 1 <= j < |s| ensures Earlier(r, s[j]) { EarlierTransitive(r, s[0], s[j]); }
      } else {
        assert s[0].id in Ids(s);
        EarlierTotal(r, s[0]);
        forall id | id in Ids(s[1..]) ensures id in Ids(s) {
          var i :| 0 <= i < |s[1..]| && s[1..][i].id == id;
          assert s[i + 1].id == id;
        }
        InsertSorted(r, s[1..]);
        InsertMembers(r, s[1..]);
        var t := Insert(r, s[1..]);
        forall j | 0 <= j < |t| ensures Earlier(s[0], t[j]) && s[0].id != t[j].id {
          assert t[j] == r || t[j] in s[1..];
        }
      }
    }
  }

  /** All runs of the map in time order, ties by id. */
  ghost function Ordered(m: RunMap): seq<Run>
    requires Keyed(m)
    decreases |m|
  {
    if m == map[] then [] else
      var id :| id in m;
      assert (m - {id}).Keys == m.Keys - {id};
      Insert(m[id], Ordered(m - {id}))
  }

  lemma {:induction false} OrderedIs(m: RunMap)
    requires Keyed(m)
    ensures Enumerates(Ordered(m), m) && Chronological(Ordered(m)) && OldestFirst(Ordered(m))
    decreases |m|
  {
    if m != map[] {
      var id :| id in m && Ordered(m) == Insert(m[id], Ordered(m - {id}));
      assert (m - {id}).Keys == m.Keys - {id};
      OrderedIs(m - {id});
      InsertEnumerates(m, id, Ordered(m - {id}));
      ChronologicalOldestFirst(Ordered(m));
    }
  }

  lemma InsertEnumerates(m: RunMap, id: string, s: seq<Run>)
    requires Keyed(m) && id in m && Enumerates(s, m - {id}) && Chronological(s)
    ensures Enumerates(Insert(m[id], s), m) && Chronological(Insert(m[id], s))
  {
    var t := Insert(m[id], s);
    InsertSorted(m[id], s);
    InsertMembers(m[id], s);
    forall i | 0 <= i < |t| ensures t[i].id in m && m[t[i].id] == t[i] {
      assert t[i] in t;
    }
    forall o | o in m ensures o in Ids(t) {
      if o != id {
        assert o in m - {id};
        var i :| 0 <= i < |s| && s[i].id == o;
        assert s[i] in t;
      } else {
        assert m[id] in t;
      }
    }
  }

  lemma SameHead(s: seq<Run>, t: seq<Run>, m: RunMap)
    requires Enumerates(s, m) && Enumerates(t, m) && Chronological(s) && Chronological(t)
    requires s != []
    ensures t != [] && s[0] == t[0]
  {
    assert s[0].id in Ids(t) && t != [] && t[0].id in Ids(s);
    var j :| 0 <= j < |t| && t[j].id == s[0].id;
    var i :| 0 <= i < |s| && s[i].id == t[0].id;
    assert s[i] == t[0] && t[j] == s[0];
    if s[0] != t[0] { EarlierAsymmetric(s[0], t[0]); }
  }

  lemma EnumerationSize(s: seq<Run>, m: RunMap)
    requires Enumerates(s, m)
    ensures |s| == |m|
  {
    IdsSize(s);
    assert Ids(s) == m.Keys;
  }

  /** Time order with ties by id leaves no choice. */
  lemma {:induction false} OrderedUnique(s: seq<Run>, t: seq<Run>, m: RunMap)
    requires Enumerates(s, m) && Enumerates(t, m) && Chronological(s) && Chronological(t)
    ensures s == t
    decreases |s|
  {
    EnumerationSize(s, m);
    EnumerationSize(t, m);
    if s != [] {
      SameHead(s, t, m);
      EnumerateTail(s, m);
      EnumerateTail(t, m);
      OrderedUnique(s[1..], t[1..], m - {s[0].id});
      SameCons(s, t);
    }
  }

  lemma SameCons(s: seq<Run>, t: seq<Run>)
    requires s != [] && t != [] && s[0] == t[0] && s[1..] == t[1..]
    ensures s == t
  {
    assert s == [s[0]] + s[1..] && t == [t[0]] + t[1..];
  }

  lemma EnumerateTail(s: seq<Run>, m: RunMap)
    requires Enumerates(s, m) && s != []
    ensures Enumerates(s[1..], m - {s[0].id})
  {
    forall id | id in m - {s[0].id} ensures id in Ids(s[1..]) {
      var i :| 0 <= i < |s| && s[i].id == id;
      assert s[1..][i - 1].id == id;
    }
  }

  // ------------------------------------------------------ removing some runs

  /** The runs of `s` whose id is not in `gone`. */
  function Without(s: seq<Run>, gone: set<string>): seq<Run> {
    if s == [] then [] else (if s[0].id in gone then [] else [s[0]]) + Without(s[1..], gone)
  }

  lemma {:induction false} WithoutMembers(s: seq<Run>, gone: set<string>)
    ensures forall r :: r in Without(s, gone) <==> r in s && r.id !in gone
  {
    if s != [] {
      WithoutMembers(s[1..], gone);
      assert forall r :: r in s <==> r == s[0] || r in s[1..];
    }
  }

  lemma {:induction false} WithoutPairwise(s: seq<Run>, gone: set<string>, rel: (Run, Run) -> bool)
    requires forall i, j :: 0 <= i < j < |s| ==> rel(s[i], s[j])
    ensures forall i, j :: 0 <= i < j < |Without(s, gone)| ==> rel(Without(s, gone)[i], Without(s, gone)[j])
  {
    if s != [] {
      var d := Without(s[1..], gone);
      WithoutPairwise(s[1..], gone, rel);
      WithoutMembers(s[1..], gone);
      forall j | 0 <= j < |d| ensures rel(s[0], d[j]) {
        assert d[j] in d;
        var k :| 0 <= k < |s[1..]| && s[1..][k] == d[j];
        assert s[k + 1] == d[j];
      }
    }
  }

  lemma WithoutSorted(s: seq<Run>, gone: set<string>)
    ensures DistinctIds(s) ==> DistinctIds(Without(s, gone))
    ensures OldestFirst(s) ==> OldestFirst(Without(s, gone))
    ensures Chronological(s) ==> Chronological(Without(s, gone))
  {
    if DistinctIds(s) { WithoutPairwise(s, gone, (a: Run, b: Run) => a.id != b.id); }
    if OldestFirst(s) { WithoutPairwise(s, gone, (a: Run, b: Run) => a.startedAt <= b.startedAt); }
    if Chronological(s) { WithoutPairwise(s, gone, Earlier); }
  }

  lemma WithoutEnumerates(s: seq<Run>, m: RunMap, gone: set<string>)
    requires Enumerates(s, m)
    ensures Enumerates(Without(s, gone), m - gone)
    ensures OldestFirst(s) ==> OldestFirst(Without(s, gone))
    ensures Chronological(s) ==> Chronological(Without(s, gone))
  {
    WithoutMembers(s, gone);
    WithoutSorted(s, gone);
    var t := Without(s, gone);
    forall i | 0 <= i < |t| ensures t[i].id in m - gone && (m - gone)[t[i].id] == t[i] {
      assert t[i] in t;
    }
    forall id | id in m - gone ensures id in Ids(t) {
      var i :| 0 <= i < |s| && s[i].id == id;
      assert s[i] in t;
    }
  }

  /** Removing the first `n` completed runs leaves the others, in order. */
  lemma {:induction false} DoneWithout(s: seq<Run>, n: nat)
    requires DistinctIds(s) && n <= |Done(s)|
    ensures Done(Without(s, Ids(Done(s)[..n]))) == Done(s)[n..]
  {
    DoneWithoutAny(s, Ids(Done(s)[..n]));
    DoneSorted(s);
    WithoutPrefix(Done(s), n);
  }

  lemma {:induction false} DoneWithoutAny(s: seq<Run>, gone: set<string>)
    ensures Done(Without(s, gone)) == Without(Done(s), gone)
  {
    if s != [] {
      var h, rest := [s[0]], s[1..];
      DoneWithoutAny(rest, gone);
      assert Done(s) == Done(h) + Done(rest);
      WithoutConcat(Done(h), Done(rest), gone);
      DoneConcat(Without(h, gone), Without(rest, gone));
      assert Without(s, gone) == Without(h, gone) + Without(rest, gone);
    }
  }

  lemma {:induction false} WithoutConcat(s: seq<Run>, t: seq<Run>, gone: set<string>)
    ensures Without(s + t, gone) == Without(s, gone) + Without(t, gone)
  {
    if s == [] {
      assert s + t == t;
    } else {
      assert (s + t)[1..] == s[1..] + t;
      WithoutConcat(s[1..], t, gone);
    }
  }

  lemma {:induction false} WithoutPrefix(s: seq<Run>, n: nat)
    requires DistinctIds(s) && n <= |s|
    ensures Without(s, Ids(s[..n])) == s[n..]
  {
    assert s == s[..n] + s[n..];
    WithoutConcat(s[..n], s[n..], Ids(s[..n]));
    WithoutAll(s[..n], Ids(s[..n]));
    WithoutNone(s[n..], Ids(s[..n]));
  }

  lemma {:induction false} WithoutAll(s: seq<Run>, gone: set<string>)
    requires Ids(s) <= gone
    ensures Without(s, gone) == []
  {
    if s != [] {
      assert s[0].id in Ids(s);
      forall id | id in Ids(s[1..]) ensures id in gone {
        var i :| 0 <= i < |s[1..]| && s[1..][i].id == id;
        assert s[i + 1].id in Ids(s);
      }
      WithoutAll(s[1..], gone);
    }
  }

  lemma {:induction false} WithoutNone(s: seq<Run>, gone: set<string>)
    requires forall i :: 0 <= i < |s| ==> s[i].id !in gone
    ensures Without(s, gone) == s
  {
    if s != [] { WithoutNone(s[1..], gone); }
  }

  // ---------------------------------------------------------------- listing

  /** Where the listed runs stand in the sequence. */
  predicate Tail(listed: seq<Run>, asc: seq<Run>) {
    |listed| <= |asc| && forall i :: 0 <= i < |listed| ==> listed[i] == asc[|asc| - 1 - i]
  }

  /** What a listing holds: all runs, or as many as the limit says, each as it is
      stored, and none left out that is newer than one listed. */
  lemma ListMeans(asc: seq<Run>, m: RunMap, limit: int, listed: seq<Run>)
    requires Enumerates(asc, m) && OldestFirst(asc) && listed == Trim(Reversed(asc), limit)
    ensures |listed| == if limit <= 0 || |m| < limit then |m| else limit
    ensures forall i :: 0 <= i < |listed| ==> listed[i].id in m && m[listed[i].id] == listed[i]
    ensures forall id, i :: id in m && id !in Ids(listed) && 0 <= i < |listed| ==>
              m[id].startedAt <= listed[i].startedAt
    ensures Tail(listed, asc)
  {
    EnumerationSize(asc, m);
    assert Tail(listed, asc);
    forall id, i | id in m && id !in Ids(listed) && 0 <= i < |listed| ensures m[id].startedAt <= listed[i].startedAt {
      OmittedOlder(asc, m, listed, id, i);
    }
  }

  lemma OmittedOlder(asc: seq<Run>, m: RunMap, listed: seq<Run>, id: string, i: nat)
    requires Enumerates(asc, m) && OldestFirst(asc) && Tail(listed, asc)
    requires id in m && i < |listed|
    ensures id in Ids(listed) || m[id].startedAt <= listed[i].startedAt
  {
    var k :| 0 <= k < |asc| && asc[k].id == id;
    if |asc| - 1 - k < |listed| { assert listed[|asc| - 1 - k].id == id; }
  }

  /** Its order: newest first, each run once, and by id, greatest first, among
      equal start times when the sequence breaks ties by id. */
  lemma ListOrder(asc: seq<Run>, listed: seq<Run>)
    requires DistinctIds(asc) && OldestFirst(asc) && Tail(listed, asc)
    ensures forall i, j :: 0 <= i < j < |listed| ==>
              listed[i].id != listed[j].id && listed[i].startedAt >= listed[j].startedAt
    ensures Chronological(asc) ==>
              forall i, j :: 0 <= i < j < |listed| && listed[i].startedAt == listed[j].startedAt ==>
                Less(listed[j].id, listed[i].id)
  {
    if Chronological(asc) {
      forall i, j | 0 <= i < j < |listed| && listed[i].startedAt == listed[j].startedAt
        ensures Less(listed[j].id, listed[i].id)
      {
        assert Earlier(asc[|asc| - 1 - j], asc[|asc| - 1 - i]);
      }
    }
  }
}
