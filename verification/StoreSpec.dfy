/** The run half of the `Store` interface, as requests and answers. */
module StoreSpec {
  import opened Lex
  import opened Runs
  import TimeKey

  datatype Request =
    | SaveRun(run: Run)
    | UpdateRun(run: Run)
    | ClearRuns
    | PruneRuns(retention: Retention, now: int)
    | ListRuns(limit: int)
    | HasRunningRun(scheduleName: string)

  datatype Answer =
    | Ok
    | Refused
    | Pruned(result: PruneResult)
    | Listed(runs: seq<Run>)
    | Found(running: bool)

  /** JSON can hold the start time. */
  predicate Encodable(run: Run) {
    TimeKey.InRange(run.startedAt)
  }

  /** The longest key bbolt takes, in bytes. */
  const MAX_KEY := 32_768

  function Utf8Length(text: string): nat {
    if text == "" then 0 else
      (if text[0] < '\U{80}' then 1 else if text[0] < '\U{800}' then 2 else if text[0] < '\U{10000}' then 3 else 4)
      + Utf8Length(text[1..])
  }

  /** bbolt takes the run's keys: none is empty and none too long. The run's own
      key is a part of its started-at key. */
  predicate KeysFit(run: Run) {
    && run.id != ""
    && TimeKey.LAYOUT + 1 + Utf8Length(run.id) <= MAX_KEY
    && (run.status == Running ==> Utf8Length(run.scheduleName) + 1 + Utf8Length(run.id) <= MAX_KEY)
  }

  /** The indexed store does not refuse the run. */
  predicate Storable(run: Run) {
    Encodable(run) && KeysFit(run)
  }

  predicate HasRunning(m: RunMap, name: string) {
    exists id :: id in m && m[id].status == Running && m[id].scheduleName == name
  }

  /** What the indexed store does: ties are broken by id, and a run that JSON or
      bbolt cannot hold is refused. */
  ghost function Indexed(m: RunMap, request: Request): (RunMap, Answer)
    requires Keyed(m)
  {
    match request
    case SaveRun(run) => if Storable(run) then (m[run.id := run], Ok) else (m, Refused)
    case UpdateRun(run) => if Storable(run) then (m[run.id := run], Ok) else (m, Refused)
    case ClearRuns => (map[], Ok)
    case PruneRuns(retention, now) =>
      (m - Victims(Ordered(m), retention, now), Pruned(Report(Ordered(m), retention, now)))
    case ListRuns(limit) => (m, Listed(Trim(Reversed(Ordered(m)), limit)))
    case HasRunningRun(name) => (m, Found(HasRunning(m, name)))
  }

  /** What the scan-and-sort store may do: any order of ties, nothing refused. */
  ghost predicate Scanned(m: RunMap, request: Request, m': RunMap, answer: Answer) {
    match request
    case SaveRun(run) => m' == m[run.id := run] && answer == Ok
    case UpdateRun(run) => m' == m[run.id := run] && answer == Ok
    case ClearRuns => m' == map[] && answer == Ok
    case PruneRuns(retention, now) =>
      exists asc :: Enumerates(asc, m) && OldestFirst(asc)
                    && m' == m - Victims(asc, retention, now) && answer == Pruned(Report(asc, retention, now))
    case ListRuns(limit) =>
      m' == m && exists asc :: Enumerates(asc, m) && OldestFirst(asc) && answer == Listed(Trim(Reversed(asc), limit))
    case HasRunningRun(name) => m' == m && answer == Found(HasRunning(m, name))
  }

  predicate Savable(request: Request) {
    (request.SaveRun? || request.UpdateRun?) ==> Storable(request.run)
  }

  lemma IndexedKeyed(m: RunMap, request: Request)
    requires Keyed(m)
    ensures Keyed(Indexed(m, request).0)
  {
  }

  /** One request: the indexed store does something the scanning store may do,
      exactly when the request does not save a run it must refuse. */
  lemma StepRefines(m: RunMap, request: Request)
    requires Keyed(m)
    ensures Scanned(m, request, Indexed(m, request).0, Indexed(m, request).1) <==> Savable(request)
  {
    OrderedIs(m);
  }

  // ------------------------------------------------------------ whole histories

  ghost function FinalMap(m: RunMap, requests: seq<Request>): (f: RunMap)
    requires Keyed(m)
    ensures Keyed(f)
    decreases |requests|
  {
    if requests == [] then m else
      IndexedKeyed(m, requests[0]);
      FinalMap(Indexed(m, requests[0]).0, requests[1..])
  }

  ghost function Answers(m: RunMap, requests: seq<Request>): (a: seq<Answer>)
    requires Keyed(m)
    ensures |a| == |requests|
    decreases |requests|
  {
    if requests == [] then [] else
      IndexedKeyed(m, requests[0]);
      [Indexed(m, requests[0]).1] + Answers(Indexed(m, requests[0]).0, requests[1..])
  }

  /** Some execution of the scanning store from `m` gives these answers and
      ends in `final`. */
  ghost predicate ScanHistory(m: RunMap, requests: seq<Request>, answers: seq<Answer>, final: RunMap)
    requires |answers| == |requests|
    decreases |requests|
  {
    if requests == [] then final == m else
      exists mid :: Scanned(m, requests[0], mid, answers[0])
                    && ScanHistory(mid, requests[1..], answers[1..], final)
  }

  predicate AllSavable(requests: seq<Request>) {
    forall i :: 0 <= i < |requests| ==> Savable(requests[i])
  }

  /** Whole histories: what the indexed store answers and stores is a behaviour
      of the scanning store, exactly when every saved run is storable. */
  lemma {:induction false} HistoryRefines(m: RunMap, requests: seq<Request>)
    requires Keyed(m)
    ensures ScanHistory(m, requests, Answers(m, requests), FinalMap(m, requests)) <==> AllSavable(requests)
    decreases |requests|
  {
    if requests != [] {
      var next := Indexed(m, requests[0]);
      var rest := requests[1..];
      IndexedKeyed(m, requests[0]);
      StepRefines(m, requests[0]);
      HistoryRefines(next.0, rest);
      assert Answers(m, requests)[1..] == Answers(next.0, rest);
      assert AllSavable(requests) <==> Savable(requests[0]) && AllSavable(rest) by {
        assert requests == [requests[0]] + rest;
      }
      if !AllSavable(requests) {
        var i :| 0 <= i < |requests| && !Savable(requests[i]);
        UnsavableRefused(m, requests, i);
        if ScanHistory(m, requests, Answers(m, requests), FinalMap(m, requests)) {
          NeverRefuses(m, requests, Answers(m, requests), FinalMap(m, requests));
        }
      }
    }
  }

  lemma {:induction false} NeverRefuses(m: RunMap, requests: seq<Request>, answers: seq<Answer>, final: RunMap)
    requires |answers| == |requests| && ScanHistory(m, requests, answers, final)
    ensures forall i :: 0 <= i < |answers| ==> answers[i] != Refused
    decreases |requests|
  {
    if requests != [] {
      var mid :| Scanned(m, requests[0], mid, answers[0]) && ScanHistory(mid, requests[1..], answers[1..], final);
      NeverRefuses(mid, requests[1..], answers[1..], final);
      assert answers == [answers[0]] + answers[1..];
    }
  }

  lemma {:induction false} UnsavableRefused(m: RunMap, requests: seq<Request>, i: nat)
    requires Keyed(m) && i < |requests| && !Savable(requests[i])
    ensures Answers(m, requests)[i] == Refused
    decreases i
  {
    IndexedKeyed(m, requests[0]);
    if i > 0 {
      UnsavableRefused(Indexed(m, requests[0]).0, requests[1..], i - 1);
    }
  }

  /** When no two runs start at the same instant, the scanning store has no
      freedom either. */
  lemma DistinctTimesAgree(m: RunMap, request: Request, m': RunMap, answer: Answer)
    requires Keyed(m) && Savable(request) && Scanned(m, request, m', answer)
    requires forall i, j :: i in m && j in m && i != j ==> m[i].startedAt != m[j].startedAt
    ensures (m', answer) == Indexed(m, request)
  {
    if asc :| Enumerates(asc, m) && OldestFirst(asc) && (request.ListRuns? || request.PruneRuns?)
              && (request.ListRuns? ==> answer == Listed(Trim(Reversed(asc), request.limit)))
              && (request.PruneRuns? ==> m' == m - Victims(asc, request.retention, request.now)
                                         && answer == Pruned(Report(asc, request.retention, request.now))) {
      OrderedIs(m);
      OrderedUnique(asc, Ordered(m), m);
    }
  }

  /** Different runs of the pool start at different instants. */
  predicate DistinctStarts(pool: set<Run>) {
    forall a, b :: a in pool && b in pool && a.id != b.id ==> a.startedAt != b.startedAt
  }

  predicate RunsWithin(m: RunMap, pool: set<Run>) {
    forall id :: id in m ==> m[id] in pool
  }

  predicate SavesWithin(requests: seq<Request>, pool: set<Run>) {
    forall i :: 0 <= i < |requests| && (requests[i].SaveRun? || requests[i].UpdateRun?) ==> requests[i].run in pool
  }

  /** Whole histories: when no two runs ever start at the same instant, the
      scanning store answers and ends as the indexed store does. */
  lemma {:induction false} DistinctHistoriesAgree(m: RunMap, requests: seq<Request>, answers: seq<Answer>,
                                                  final: RunMap, pool: set<Run>)
    requires Keyed(m) && AllSavable(requests) && |answers| == |requests|
    requires DistinctStarts(pool) && RunsWithin(m, pool) && SavesWithin(requests, pool)
    requires ScanHistory(m, requests, answers, final)
    ensures answers == Answers(m, requests) && final == FinalMap(m, requests)
    decreases |requests|
  {
    if requests != [] {
      var mid :| Scanned(m, requests[0], mid, answers[0]) && ScanHistory(mid, requests[1..], answers[1..], final);
      DistinctTimesAgree(m, requests[0], mid, answers[0]);
      IndexedKeyed(m, requests[0]);
      DistinctHistoriesAgree(mid, requests[1..], answers[1..], final, pool);
      assert answers == [answers[0]] + answers[1..];
    }
  }

  lemma {:induction false} Utf8Bounds(text: string)
    ensures |text| <= Utf8Length(text) <= 4 * |text|
    ensures (forall c :: c in text ==> c < '\U{80}') ==> Utf8Length(text) == |text|
  {
    if text != "" {
      Utf8Bounds(text[1..]);
      assert text[0] in text && forall c :: c in text[1..] ==> c in text;
      assert text == [text[0]] + text[1..];
    }
  }

  /** The widths of characters around each boundary. */
  lemma Utf8Widths()
    ensures Utf8Length("\U{7F}") == 1 && Utf8Length("\U{80}") == 2
    ensures Utf8Length("\U{7FF}") == 2 && Utf8Length("\U{800}") == 3
    ensures Utf8Length("\U{FFFF}") == 3 && Utf8Length("\U{10000}") == 4
  {
  }

  /** Which runs with plain text are stored, in numbers: those that start in the
      ten thousand years from 0000-01-01, under an id that leaves room for the
      time in a key of 32768 bytes, and for the name when they are running. */
  lemma PlainStorable(run: Run)
    requires forall c :: c in run.id + run.scheduleName ==> c < '\U{80}'
    ensures Storable(run)
       <==> && 0 <= run.startedAt < 315_569_520_000_000_000_000
            && 1 <= |run.id| <= 32_741
            && (run.status == Running ==> |run.scheduleName| + |run.id| <= 32_767)
  {
    assert forall c :: c in run.id ==> c in run.id + run.scheduleName;
    assert forall c :: c in run.scheduleName ==> c in run.id + run.scheduleName;
    Utf8Bounds(run.id);
    Utf8Bounds(run.scheduleName);
  }
}
