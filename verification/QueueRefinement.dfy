// The queue object performs the steps of the protocol.
module QueueRefinement {
  import opened Options
  import opened QueueCode
  import opened QueueSteps
  import opened QueueProtocol
  import opened QueryQueues

  /** What the protocol expects of whoever uses the queue. */
  ghost predicate Permitted(w: World, a: Action) {
    match a
    case Insert(qid, st, gs) =>
      qid !in w.cand && DistinctPartitions(Candidates(gs)) && st.scheduled == st.completed == 0
    case Complete(qid, pid) => qid in w.inFlight && pid in w.inFlight[qid]
    case _ => true
  }

  /** Every permitted call on a queue object is a step of the protocol. */
  method Perform(queue: QueryQueue, a: Action, ghost w: World) returns (ghost w': World)
    requires queue.State() == w.q && Permitted(w, a)
    modifies queue
    ensures Step(w, a, w') && queue.State() == w'.q
  {
    hide Inserted, Activated, QueueCode.Next, QueueCode.Complete, QueueCode.Remove, MarkErased;
    match a {
      case Insert(qid, st, gs) =>
        var err := queue.Insert(qid, st, gs);
        w' := w.(q := queue.State());
        if err.None? {
          w' := World(w'.q, w.cand[qid := Partitions(Candidates(gs))], w.handed[qid := {}], w.inFlight[qid := {}]);
        } else {
          Refused(w.q, w'.q, qid, st, gs);
        }
      case Activate(qid, n) =>
        var _ := queue.Activate(qid, n);
        w' := w.(q := queue.State());
      case Next =>
        var r := queue.TakeNext();
        w' := w.(q := queue.State());
        if r.Some? {
          w' := World(w'.q, w.cand, Hand(w.handed, r.value), Hand(w.inFlight, r.value));
        }
      case Complete(qid, pid) =>
        var _ := queue.HandleCompletion(qid);
        w' := w.(q := queue.State(), inFlight := w.inFlight[qid := w.inFlight[qid] - {pid}]);
      case Remove(qid) =>
        var _ := queue.RemoveQuery(qid);
        w' := w.(q := queue.State());
      case Erase(pid) =>
        var _ := queue.MarkPartitionErased(pid);
        w' := w.(q := queue.State());
    }
  }

  lemma Refused(q: Queue, q': Queue, qid: Uuid, st: QueryState, gs: seq<Group>)
    requires Inserted(q, q', qid, st, gs) && !InsertAccepted(q, qid, st, gs)
    ensures q' == q
  {
  }
}
