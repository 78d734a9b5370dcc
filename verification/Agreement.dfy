/** The two stores side by side. */
module Agreement {
  import opened Runs
  import opened StoreSpec
  import opened BoltStore
  import opened MemoryStore

  /** Two stores with the same runs serve the same storable requests: whatever
      the indexed store answers and keeps, the scanning store might have; and
      when no two runs of the pool start at the same instant, they answer and
      end alike. */
  method ServeBoth(bolt: BoltStore, memory: MemoryStore, requests: seq<Request>, ghost pool: set<Run>)
    returns (answers: seq<Answer>, scanned: seq<Answer>)
    requires bolt.Valid() && memory.Valid() && bolt.runs == memory.runs && AllSavable(requests)
    requires forall i :: 0 <= i < |requests| ==> Named(requests[i])
    modifies bolt, memory
    ensures bolt.Valid() && memory.Valid() && |answers| == |scanned| == |requests|
    ensures ScanHistory(old(memory.runs), requests, answers, bolt.runs)
    ensures ScanHistory(old(memory.runs), requests, scanned, memory.runs)
    ensures DistinctStarts(pool) && RunsWithin(old(bolt.runs), pool) && SavesWithin(requests, pool) ==>
              answers == scanned && bolt.runs == memory.runs
  {
    ghost var before := bolt.runs;
    HistoryRefines(before, requests);
    answers := bolt.ServeAll(requests);
    scanned := memory.ServeAll(requests);
    if DistinctStarts(pool) && RunsWithin(before, pool) && SavesWithin(requests, pool) {
      DistinctHistoriesAgree(before, requests, scanned, memory.runs, pool);
    }
  }
}
