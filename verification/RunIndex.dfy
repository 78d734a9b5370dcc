/** Index keys, and what it means for an index to describe the runs bucket. */
module RunIndex {
  import opened Lex
  import opened Runs
  import opened StoreSpec
  import TimeKey

  /** Values of an index bucket are run ids. */
  type Index = map<string, string>

  // --------------------------------------------------------------------- keys

  /** `runStartedAtIndexKey`: fixed-width UTC time, a bar, the id. */
  function StartedKey(run: Run): string
    requires Encodable(run)
  {
    TimeKey.TimeText(run.startedAt) + ("|" + run.id)
  }

  /** `startedAtFromRunIndexKey`. */
  function StartedAtFromKey(key: string): Option<int> {
    if |key| < TimeKey.LAYOUT then None else TimeKey.ParseTime(key[..TimeKey.LAYOUT])
  }

  function SchedulePrefix(name: string): string {
    name + "\0"
  }

  /** `runningRunScheduleKey`. */
  function RunningKey(run: Run): string {
    SchedulePrefix(run.scheduleName) + run.id
  }

  /** Byte order of started-at keys is the order of (start time, id). */
  lemma StartedKeyOrder(a: Run, b: Run)
    requires Encodable(a) && Encodable(b)
    ensures Less(StartedKey(a), StartedKey(b)) <==> Earlier(a, b)
  {
    var x, y := TimeKey.TimeText(a.startedAt), TimeKey.TimeText(b.startedAt);
    TimeKey.TimeOrder(a.startedAt, b.startedAt);
    TimeKey.TimeOrder(b.startedAt, a.startedAt);
    Total(x, y);
    Concat(x, "|" + a.id, y, "|" + b.id);
    Irreflexive("|");
    Concat("|", a.id, "|", b.id);
    Irreflexive(x);
  }

  /** The time comes back from the key exactly, and so does the id. */
  lemma StartedKeyInverse(run: Run)
    requires Encodable(run)
    ensures StartedAtFromKey(StartedKey(run)) == Some(run.startedAt)
    ensures StartedKey(run)[TimeKey.LAYOUT + 1..] == run.id
  {
    var t := TimeKey.TimeText(run.startedAt);
    assert StartedKey(run)[..TimeKey.LAYOUT] == t;
    TimeKey.ParseTimeText(run.startedAt);
  }

  lemma StartedKeyInjective(a: Run, b: Run)
    requires Encodable(a) && Encodable(b) && StartedKey(a) == StartedKey(b)
    ensures a.startedAt == b.startedAt && a.id == b.id
  {
    StartedKeyInverse(a);
    StartedKeyInverse(b);
  }

  /** The name continues past a NUL after `name`. */
  predicate Extends(longer: string, name: string) {
    HasPrefix(longer, SchedulePrefix(name))
  }

  lemma ExtendedHasNul(longer: string, name: string)
    ensures Extends(longer, name) ==> !NulFree(longer)
  {
    if Extends(longer, name) {
      assert longer[..|name| + 1][|name|] == SchedulePrefix(name)[|name|];
    }
  }

  /** Which keys of the running index carry a schedule's prefix, whatever the
      schedules are called: those of the schedule itself, and of any whose name
      continues it past a NUL. */
  lemma PrefixExactly(run: Run, name: string)
    requires NulFree(name)
    ensures HasPrefix(RunningKey(run), SchedulePrefix(name))
       <==> run.scheduleName == name || Extends(run.scheduleName, name)
  {
    var key, own, n := RunningKey(run), run.scheduleName, |name|;
    assert key[..|own|] == own && key[|own|] == '\0';
    if HasPrefix(key, SchedulePrefix(name)) {
      assert key[..n] == name by { assert key[..n + 1][..n] == SchedulePrefix(name)[..n] == name; }
      assert key[n] == '\0' by { assert key[..n + 1][n] == SchedulePrefix(name)[n]; }
      assert forall i :: 0 <= i < n ==> name[i] == key[i];
      assert n <= |own|;
      if n < |own| { assert own[..n + 1] == key[..n + 1]; }
      if n == |own| { assert own == key[..n]; }
    }
    if own == name { assert key[..n + 1] == SchedulePrefix(name); }
    if Extends(own, name) { assert key[..n + 1] == own[..n + 1]; }
  }

  /** A key of the running index carries a schedule's prefix only when the run
      is that schedule's: no name is confused with a longer one. */
  lemma PrefixIffSchedule(run: Run, name: string)
    requires NulFree(run.scheduleName) && NulFree(name)
    ensures HasPrefix(RunningKey(run), SchedulePrefix(name)) <==> run.scheduleName == name
  {
    PrefixExactly(run, name);
    ExtendedHasNul(run.scheduleName, name);
  }

  lemma RunningKeyInjective(a: Run, b: Run)
    requires NulFree(a.scheduleName) && NulFree(b.scheduleName) && RunningKey(a) == RunningKey(b)
    ensures a.scheduleName == b.scheduleName && a.id == b.id
  {
    var p := SchedulePrefix(b.scheduleName);
    assert RunningKey(b)[..|p|] == p;
    PrefixIffSchedule(a, b.scheduleName);
    assert RunningKey(a)[|p|..] == a.id && RunningKey(b)[|p|..] == b.id;
  }

  /** Both keys, separators included. */
  lemma KeysAre(run: Run)
    requires Encodable(run)
    ensures StartedKey(run) == TimeKey.TimeText(run.startedAt) + "|" + run.id
    ensures RunningKey(run) == run.scheduleName + "\0" + run.id
  {
  }

  // ------------------------------------------------------------------ indexes

  /** Runs the store can hold under schedule names the engine accepts. */
  ghost predicate Sound(m: RunMap) {
    && Keyed(m)
    && forall id :: id in m ==> Storable(m[id]) && NulFree(m[id].scheduleName)
  }

  /** The started-at index holds one entry for each run, and no other. */
  ghost predicate DescribesStarts(index: Index, m: RunMap)
    requires Sound(m)
  {
    && (forall id :: id in m ==> StartedKey(m[id]) in index && index[StartedKey(m[id])] == id)
    && (forall key :: key in index ==> index[key] in m && StartedKey(m[index[key]]) == key)
  }

  /** The running index holds one entry for each running run, and no other. */
  ghost predicate DescribesRunning(index: Index, m: RunMap) {
    && (forall id :: id in m && m[id].status == Running ==>
          RunningKey(m[id]) in index && index[RunningKey(m[id])] == id)
    && (forall key :: key in index ==>
          index[key] in m && m[index[key]].status == Running && RunningKey(m[index[key]]) == key)
  }

  ghost predicate Describes(starts: Index, running: Index, count: int, m: RunMap) {
    && Sound(m)
    && DescribesStarts(starts, m)
    && DescribesRunning(running, m)
    && count == |CompletedIds(m)|
  }

  /** The runs bucket determines both indexes and the count. */
  lemma DescriptionUnique(m: RunMap, starts: Index, running: Index, count: int,
                          starts': Index, running': Index, count': int)
    requires Describes(starts, running, count, m) && Describes(starts', running', count', m)
    ensures starts == starts' && running == running' && count == count'
  {
    forall key | key in starts ensures key in starts' && starts'[key] == starts[key] {
      assert StartedKey(m[starts[key]]) == key;
    }
    forall key | key in starts' ensures key in starts {
      assert StartedKey(m[starts'[key]]) == key;
    }
    forall key | key in running ensures key in running' && running'[key] == running[key] {
      assert RunningKey(m[running[key]]) == key;
    }
    forall key | key in running' ensures key in running {
      assert RunningKey(m[running'[key]]) == key;
    }
  }

  lemma PutStart(index: Index, m: RunMap, run: Run)
    requires Sound(m) && DescribesStarts(index, m)
    requires run.id !in m && Storable(run) && NulFree(run.scheduleName)
    ensures DescribesStarts(index[StartedKey(run) := run.id], m[run.id := run])
  {
    var key := StartedKey(run);
    var index', m' := index[key := run.id], m[run.id := run];
    forall id | id in m ensures StartedKey(m[id]) != key {
      if StartedKey(m[id]) == key { StartedKeyInjective(m[id], run); }
    }
    forall k | k in index' ensures index'[k] in m' && StartedKey(m'[index'[k]]) == k {
      if k != key { assert m'[index[k]] == m[index[k]]; }
    }
  }

  lemma DropStart(index: Index, m: RunMap, id: string)
    requires Sound(m) && DescribesStarts(index, m) && id in m
    ensures DescribesStarts(index - {StartedKey(m[id])}, m - {id})
  {
    forall o | o in m && o != id ensures StartedKey(m[o]) != StartedKey(m[id]) {
      if StartedKey(m[o]) == StartedKey(m[id]) { StartedKeyInjective(m[o], m[id]); }
    }
  }

  function WithRunning(index: Index, run: Run): Index {
    if run.status == Running then index[RunningKey(run) := run.id] else index
  }

  function WithoutRunning(index: Index, run: Run): Index {
    if run.status == Running then index - {RunningKey(run)} else index
  }

  lemma PutRunning(index: Index, m: RunMap, run: Run)
    requires Sound(m) && DescribesRunning(index, m)
    requires run.id !in m && NulFree(run.scheduleName)
    ensures DescribesRunning(WithRunning(index, run), m[run.id := run])
  {
    forall id | id in m ensures RunningKey(m[id]) != RunningKey(run) {
      if RunningKey(m[id]) == RunningKey(run) { RunningKeyInjective(m[id], run); }
    }
  }

  lemma DropRunning(index: Index, m: RunMap, id: string)
    requires Sound(m) && DescribesRunning(index, m) && id in m
    ensures DescribesRunning(WithoutRunning(index, m[id]), m - {id})
  {
    forall o | o in m && o != id ensures RunningKey(m[o]) != RunningKey(m[id]) {
      if RunningKey(m[o]) == RunningKey(m[id]) { RunningKeyInjective(m[o], m[id]); }
    }
  }

  function CompletedWeight(run: Run): nat {
    if run.Completed() then 1 else 0
  }

  lemma PutCount(m: RunMap, run: Run)
    requires run.id !in m
    ensures |CompletedIds(m[run.id := run])| == |CompletedIds(m)| + CompletedWeight(run)
  {
    if run.Completed() {
      assert CompletedIds(m[run.id := run]) == CompletedIds(m) + {run.id};
    } else {
      assert CompletedIds(m[run.id := run]) == CompletedIds(m);
    }
  }

  lemma DropCount(m: RunMap, id: string)
    requires id in m
    ensures |CompletedIds(m - {id})| == |CompletedIds(m)| - CompletedWeight(m[id])
  {
    if m[id].Completed() {
      assert CompletedIds(m - {id}) == CompletedIds(m) - {id};
    } else {
      assert CompletedIds(m - {id}) == CompletedIds(m);
    }
  }

  lemma EmptyDescribes()
    ensures Describes(map[], map[], 0, map[])
  {
    assert CompletedIds(map[]) == {};
  }

  /** Adding the entries of a run that is not stored yet. */
  lemma PutDescribes(starts: Index, running: Index, count: int, m: RunMap, run: Run)
    requires Describes(starts, running, count, m)
    requires run.id !in m && Storable(run) && NulFree(run.scheduleName)
    ensures Describes(starts[StartedKey(run) := run.id], WithRunning(running, run), count + CompletedWeight(run),
                      m[run.id := run])
  {
    PutStart(starts, m, run);
    PutRunning(running, m, run);
    PutCount(m, run);
  }

  /** Removing the entries of a stored run. */
  lemma DropDescribes(starts: Index, running: Index, count: int, m: RunMap, id: string)
    requires Describes(starts, running, count, m) && id in m
    ensures Describes(starts - {StartedKey(m[id])}, WithoutRunning(running, m[id]), count - CompletedWeight(m[id]),
                      m - {id})
  {
    DropStart(starts, m, id);
    DropRunning(running, m, id);
    DropCount(m, id);
  }

  /** Replacing a run: its old entries out, its new entries in. */
  lemma ReplaceDescribes(starts: Index, running: Index, count: int, m: RunMap, run: Run)
    requires Describes(starts, running, count, m)
    requires run.id in m && Storable(run) && NulFree(run.scheduleName)
    ensures Describes((starts - {StartedKey(m[run.id])})[StartedKey(run) := run.id],
                      WithRunning(WithoutRunning(running, m[run.id]), run),
                      count - CompletedWeight(m[run.id]) + CompletedWeight(run), m[run.id := run])
  {
    var old', rest := m[run.id], m - {run.id};
    DropDescribes(starts, running, count, m, run.id);
    PutDescribes(starts - {StartedKey(old')}, WithoutRunning(running, old'), count - CompletedWeight(old'), rest, run);
    assert rest[run.id := run] == m[run.id := run];
  }

  // ---------------------------------------------------------- reading indexes

  /** A cursor over the started-at index visits the runs in time order. */
  lemma WalkIsOrdered(index: Index, m: RunMap)
    requires Sound(m) && DescribesStarts(index, m)
    ensures var keys := Walk(index.Keys); var asc := Ordered(m);
      && |keys| == |asc|
      && forall i :: 0 <= i < |keys| ==>
           keys[i] in index && index[keys[i]] == asc[i].id && asc[i].id in m && m[asc[i].id] == asc[i]
  {
    var walked := WalkedRuns(index, m);
    WalkedChronological(index, m);
    OrderedIs(m);
    OrderedUnique(walked, Ordered(m), m);
    WalkVisits(index.Keys);
  }

  /** The start time read from an index key is the run's. */
  lemma KeyTime(index: Index, m: RunMap, key: string)
    requires Sound(m) && DescribesStarts(index, m) && key in index
    ensures index[key] in m && StartedAtFromKey(key) == Some(m[index[key]].startedAt)
  {
    StartedKeyInverse(m[index[key]]);
  }

  /** The runs the cursor's entries lead to. */
  ghost function WalkedRuns(index: Index, m: RunMap): (walked: seq<Run>)
    requires Sound(m) && DescribesStarts(index, m)
    ensures var keys := Walk(index.Keys);
      && |walked| == |keys|
      && forall i :: 0 <= i < |keys| ==>
           keys[i] in index && walked[i] == m[index[keys[i]]] && walked[i].id == index[keys[i]]
  {
    WalkVisits(index.Keys);
    var keys := Walk(index.Keys);
    assert forall i :: 0 <= i < |keys| ==> keys[i] in keys;
    seq(|keys|, i requires 0 <= i < |keys| => m[index[keys[i]]])
  }

  lemma WalkedChronological(index: Index, m: RunMap)
    requires Sound(m) && DescribesStarts(index, m)
    ensures Enumerates(WalkedRuns(index, m), m) && Chronological(WalkedRuns(index, m))
  {
    var keys, walked := Walk(index.Keys), WalkedRuns(index, m);
    WalkVisits(index.Keys);
    forall i, j | 0 <= i < j < |keys| ensures Earlier(walked[i], walked[j]) && walked[i].id != walked[j].id {
      assert Less(keys[i], keys[j]) && keys[i] == StartedKey(walked[i]) && keys[j] == StartedKey(walked[j]);
      StartedKeyOrder(walked[i], walked[j]);
      if walked[i].id == walked[j].id { Irreflexive(keys[i]); }
    }
    forall id | id in m ensures id in Ids(walked) {
      assert StartedKey(m[id]) in keys;
      var k :| 0 <= k < |keys| && keys[k] == StartedKey(m[id]);
      assert walked[k].id == id;
    }
  }

  /** A schedule whose name continues `name` past a NUL is running. */
  predicate ExtendedRunning(m: RunMap, name: string) {
    exists id :: id in m && m[id].status == Running && Extends(m[id].scheduleName, name)
  }

  /** The check of the running index finds a key with the prefix of `name`. */
  predicate SeekFinds(index: Index, name: string) {
    var hit := Seek(index.Keys, SchedulePrefix(name));
    hit.Some? && HasPrefix(hit.value, SchedulePrefix(name))
  }

  /** What one Seek in the running index decides, whatever the schedules are
      called. */
  lemma SeekExactly(index: Index, m: RunMap, name: string)
    requires DescribesRunning(index, m) && NulFree(name)
    ensures SeekFinds(index, name) <==> HasRunning(m, name) || ExtendedRunning(m, name)
  {
    SeekDecidesPrefix(index.Keys, SchedulePrefix(name));
    if id :| id in m && m[id].status == Running && (m[id].scheduleName == name || Extends(m[id].scheduleName, name)) {
      PrefixExactly(m[id], name);
      assert RunningKey(m[id]) in index.Keys;
    }
    if key :| key in index.Keys && HasPrefix(key, SchedulePrefix(name)) {
      PrefixExactly(m[index[key]], name);
    }
  }

  /** One Seek in the running index decides whether a schedule is running. */
  lemma SeekDecidesRunning(index: Index, m: RunMap, name: string)
    requires Sound(m) && DescribesRunning(index, m) && NulFree(name)
    ensures SeekFinds(index, name) <==> HasRunning(m, name)
  {
    SeekExactly(index, m, name);
    forall id | id in m ensures !Extends(m[id].scheduleName, name) {
      ExtendedHasNul(m[id].scheduleName, name);
    }
  }

  /** The restriction on names is needed: a running run of a schedule called
      `name`, NUL and anything more makes `name` look as if it were running. */
  lemma NulNameMisleads(name: string, rest: string, id: string)
    requires NulFree(name)
    ensures var run := Run(id, SchedulePrefix(name) + rest, Running, 0, "");
      var index: Index, m := map[RunningKey(run) := id], map[id := run];
      DescribesRunning(index, m) && SeekFinds(index, name) && !HasRunning(m, name)
  {
    var run := Run(id, SchedulePrefix(name) + rest, Running, 0, "");
    var index: Index, m := map[RunningKey(run) := id], map[id := run];
    assert run.scheduleName[..|name| + 1] == SchedulePrefix(name);
    assert |run.scheduleName| > |name|;
    assert m[id].status == Running && Extends(m[id].scheduleName, name);
    SeekExactly(index, m, name);
  }
}
