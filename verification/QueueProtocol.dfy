// The query queue as a protocol: its steps, with a record of what was handed out, and what
// holds in every run.
module QueueProtocol {
  import opened Options
  import opened QueueCode
  import opened QueueEntries
  import opened QueueSteps

  /**
   * The queue together with what happened so far: for every query ever inserted its
   * candidate partitions, those that were handed out to it, and those of them that are
   * still being worked on.
   */
  datatype World = World(
    q: Queue,
    cand: map<Uuid, set<Uuid>>,
    handed: map<Uuid, set<Uuid>>,
    inFlight: map<Uuid, set<Uuid>>)

  datatype Action =
    | Insert(qid: Uuid, st: QueryState, groups: seq<Group>)
    | Activate(qid: Uuid, n: nat)
    | Next
    | Complete(qid: Uuid, pid: Uuid)
    | Remove(qid: Uuid)
    | Erase(pid: Uuid)

  const INITIAL := World(Queue(map[], [], []), map[], map[], map[])

  function Hand(m: map<Uuid, set<Uuid>>, out: Entry): (m': map<Uuid, set<Uuid>>)
    ensures m'.Keys == m.Keys
  {
    map x | x in m :: if x in out.queries then m[x] + {out.partition} else m[x]
  }

  /**
   * The environment never reuses a query id, inserts a query with fresh counters and
   * distinct candidates, and completes each partition it was handed at most once.
   */
  ghost predicate Step(w: World, a: Action, w': World) {
    match a
    case Insert(qid, st, gs) =>
      && qid !in w.cand && DistinctPartitions(Candidates(gs)) && st.scheduled == st.completed == 0
      && Inserted(w.q, w'.q, qid, st, gs)
      && if InsertAccepted(w.q, qid, st, gs) then
           && w'.cand == w.cand[qid := Partitions(Candidates(gs))]
           && w'.handed == w.handed[qid := {}]
           && w'.inFlight == w.inFlight[qid := {}]
         else w' == w
    case Activate(qid, n) =>
      Activated(w.q, w'.q, qid, n) && w' == w.(q := w'.q)
    case Next =>
      var (q', r) := QueueCode.Next(w.q);
      if r.None? then w' == w.(q := q')
      else w' == World(q', w.cand, Hand(w.handed, r.value), Hand(w.inFlight, r.value))
    case Complete(qid, pid) =>
      && qid in w.inFlight && pid in w.inFlight[qid]
      && w' == w.(q := QueueCode.Complete(w.q, qid).0, inFlight := w.inFlight[qid := w.inFlight[qid] - {pid}])
    case Remove(qid) =>
      w' == w.(q := QueueCode.Remove(w.q, qid))
    case Erase(pid) =>
      w' == w.(q := MarkErased(w.q, pid).0)
  }

  /** The candidates of a query are those pending and those handed out, with counters to match. */
  ghost predicate Balanced(
    st: QueryState, cand: set<Uuid>, handed: set<Uuid>, inFlight: set<Uuid>, pending: set<Uuid>)
  {
    && handed !! pending && cand == handed + pending && inFlight <= handed
    && st.candidates == |cand| && st.scheduled == |handed|
    && st.completed + |inFlight| == st.scheduled <= st.requested
  }

  ghost predicate Accounted(w: World, x: Uuid) {
    && x in w.q.queries && x in w.cand && x in w.handed && x in w.inFlight
    && Balanced(w.q.queries[x], w.cand[x], w.handed[x], w.inFlight[x], Pending(All(w.q), x))
  }

  ghost predicate Invariant(w: World) {
    && Structure(w.q)
    && w.cand.Keys == w.handed.Keys == w.inFlight.Keys
    && (forall x :: x in w.q.queries ==> Accounted(w, x))
  }

  // -- the books of one query ---------------------------------------------------------------

  lemma BalancedNew(st: QueryState, cand: set<Uuid>)
    requires st.candidates == |cand| && st.scheduled == st.completed == 0
    ensures Balanced(st, cand, {}, {}, cand)
  {
  }

  lemma BalancedGranted(
    st: QueryState, cand: set<Uuid>, handed: set<Uuid>, inFlight: set<Uuid>, pending: set<Uuid>, n: nat)
    requires Balanced(st, cand, handed, inFlight, pending)
    ensures Balanced(Grant(st, n), cand, handed, inFlight, pending)
  {
  }

  /** One partition moves from pending to handed out and in flight. */
  lemma BalancedNext(
    st: QueryState, cand: set<Uuid>, handed: set<Uuid>, inFlight: set<Uuid>, pending: set<Uuid>, p: Uuid)
    requires Balanced(st, cand, handed, inFlight, pending)
    requires p in pending && st.requested > st.scheduled
    ensures p !in handed
    ensures Balanced(st.(scheduled := st.scheduled + 1), cand, handed + {p}, inFlight + {p}, pending - {p})
  {
    assert handed + {p} + (pending - {p}) == handed + pending;
  }

  lemma BalancedCompleted(
    st: QueryState, cand: set<Uuid>, handed: set<Uuid>, inFlight: set<Uuid>, pending: set<Uuid>, p: Uuid)
    requires Balanced(st, cand, handed, inFlight, pending) && p in inFlight
    ensures Balanced(st.(completed := st.completed + 1), cand, handed, inFlight - {p}, pending)
    ensures st.completed + 1 == st.requested <==> inFlight - {p} == {} && st.scheduled == st.requested
    ensures st.completed + 1 == st.candidates <==> inFlight - {p} == {} && handed == cand
    ensures st.completed + 1 == st.candidates ==> pending == {}
  {
    assert inFlight == inFlight - {p} + {p};
    assert |cand| == |handed| + |pending|;
  }

  // -- every step keeps the invariant ---------------------------------------------------

  lemma InsertKeeps(w: World, qid: Uuid, st: QueryState, gs: seq<Group>, w': World)
    requires Invariant(w) && Step(w, Insert(qid, st, gs), w') && InsertAccepted(w.q, qid, st, gs)
    ensures Invariant(w')
  {
    hide Structure, Candidates, Pending, PlaceAll, All, Inserted, DistinctPartitions, Partitions, Balanced;
    InsertStructure(w.q, w'.q, qid, st, gs);
    PartitionCount(Candidates(gs));
    InsertedQueries(w.q, w'.q, qid, st, gs);
    BalancedNew(st, Partitions(Candidates(gs)));
    forall x | x in w'.q.queries
      ensures Accounted(w', x)
    {
      assert x != qid ==> Accounted(w, x);
    }
  }

  lemma InsertedQueries(q: Queue, q': Queue, qid: Uuid, st: QueryState, gs: seq<Group>)
    requires Inserted(q, q', qid, st, gs) && InsertAccepted(q, qid, st, gs)
    ensures q'.queries == q.queries[qid := st]
  {
    PlaceAllQueries(q.(queries := q.queries[qid := st]), qid, st.priority, Candidates(gs));
  }

  lemma {:induction false} PlaceAllQueries(q: Queue, qid: Uuid, priority: nat, cs: seq<Candidate>)
    ensures PlaceAll(q, qid, priority, cs).queries == q.queries
  {
    if cs != [] {
      PlaceAllQueries(q, qid, priority, cs[..|cs| - 1]);
    }
  }

  lemma ActivateKeeps(w: World, qid: Uuid, n: nat, w': World)
    requires Invariant(w) && Step(w, Activate(qid, n), w') && qid in w.q.queries
    ensures Invariant(w')
  {
    hide Structure, Pending, With, Without, All, Balanced;
    ActivateStructure(w.q, w'.q, qid, n);
    forall x | x in w'.q.queries
      ensures Accounted(w', x)
    {
      assert Accounted(w, x);
      BalancedGranted(w.q.queries[x], w.cand[x], w.handed[x], w.inFlight[x], Pending(All(w.q), x), n);
    }
  }

  lemma HandedOne(m: map<Uuid, set<Uuid>>, out: Entry, x: Uuid)
    requires x in m
    ensures Hand(m, out)[x] == if x in out.queries then m[x] + {out.partition} else m[x]
  {
  }

  lemma NextAccounted(w: World, out: Entry, w': World, x: Uuid)
    requires Invariant(w) && x in w.q.queries && Schedulable(w.q, out)
    requires w'.q.queries == Charge(w.q.queries, out.queries)
    requires Pending(All(w'.q), x) == Pending(All(w.q), x) - (if x in out.queries then {out.partition} else {})
    requires w' == World(w'.q, w.cand, Hand(w.handed, out), Hand(w.inFlight, out))
    ensures Accounted(w', x)
  {
    hide Structure, Pending, All, Charge, Hand, Balanced;
    assert Accounted(w, x);
    Charged(w.q.queries, out.queries);
    HandedOne(w.handed, out, x);
    HandedOne(w.inFlight, out, x);
    if x in out.queries {
      assert HasCredit(w.q.queries, x);
      BalancedNext(w.q.queries[x], w.cand[x], w.handed[x], w.inFlight[x], Pending(All(w.q), x), out.partition);
    } else {
      assert Pending(All(w'.q), x) == Pending(All(w.q), x);
    }
  }

  lemma NextKeeps(w: World, w': World)
    requires Invariant(w) && Step(w, Next, w')
    ensures Invariant(w')
  {
    hide Structure, Pending, All, Charge, QueueCode.Next, Balanced;
    NextStructure(w.q);
    var (q', r) := QueueCode.Next(w.q);
    if r.Some? {
      Charged(w.q.queries, r.value.queries);
    }
    forall x | x in w'.q.queries
      ensures Accounted(w', x)
    {
      if r.None? {
        assert Accounted(w, x);
      } else {
        NextAccounted(w, r.value, w', x);
      }
    }
  }

  lemma CompleteKeeps(w: World, qid: Uuid, pid: Uuid, w': World)
    requires Invariant(w) && Step(w, Complete(qid, pid), w')
    ensures Invariant(w')
  {
    hide Structure, Pending, All, Balanced;
    if qid in w.q.queries {
      assert Accounted(w, qid);
      BalancedCompleted(w.q.queries[qid], w.cand[qid], w.handed[qid], w.inFlight[qid], Pending(All(w.q), qid), pid);
      CompleteStructure(w.q, qid);
    }
    forall x | x in w'.q.queries
      ensures Accounted(w', x)
    {
      assert Accounted(w, x);
    }
  }

  lemma RemoveKeeps(w: World, qid: Uuid, w': World)
    requires Invariant(w) && Step(w, Remove(qid), w') && qid in w.q.queries
    ensures Invariant(w')
  {
    hide Structure, Pending, All, Strip, Balanced;
    RemoveStructure(w.q, qid);
    forall x | x in w'.q.queries
      ensures Accounted(w', x)
    {
      assert Accounted(w, x);
      RemovePending(w.q, qid, x);
    }
  }

  lemma EraseKeeps(w: World, pid: Uuid, w': World)
    requires Invariant(w) && Step(w, Erase(pid), w')
    ensures Invariant(w')
  {
    hide Structure, Pending, All, Find, Balanced;
    EraseStructure(w.q, pid);
    forall x | x in w'.q.queries
      ensures Accounted(w', x)
    {
      assert Accounted(w, x);
    }
  }

  lemma StepKeeps(w: World, a: Action, w': World)
    requires Invariant(w) && Step(w, a, w')
    ensures Invariant(w')
  {
    hide Invariant;
    match a {
      case Insert(qid, st, gs) =>
        if InsertAccepted(w.q, qid, st, gs) {
          InsertKeeps(w, qid, st, gs, w');
        }
      case Activate(qid, n) =>
        if qid in w.q.queries {
          ActivateKeeps(w, qid, n, w');
        } else {
          assert w' == w;
        }
      case Next => NextKeeps(w, w');
      case Complete(qid, pid) => CompleteKeeps(w, qid, pid, w');
      case Remove(qid) =>
        if qid in w.q.queries {
          RemoveKeeps(w, qid, w');
        }
      case Erase(pid) => EraseKeeps(w, pid, w');
    }
  }

  // -- what holds in every run ------------------------------------------------------------

  /** A run: actions as[i] lead from ws[i] to ws[i + 1], starting from an empty queue. */
  ghost predicate Run(ws: seq<World>, actions: seq<Action>) {
    && |ws| == |actions| + 1 && ws[0] == INITIAL
    && forall i :: 0 <= i < |actions| ==> Step(ws[i], actions[i], ws[i + 1])
  }

  lemma InitialInvariant()
    ensures Invariant(INITIAL)
  {
  }

  lemma {:induction false} RunInvariant(ws: seq<World>, actions: seq<Action>, i: nat)
    requires Run(ws, actions) && i < |ws|
    ensures Invariant(ws[i])
  {
    hide Invariant, Step;
    if i == 0 {
      InitialInvariant();
    } else {
      RunInvariant(ws, actions, i - 1);
      StepKeeps(ws[i - 1], actions[i - 1], ws[i]);
    }
  }

  /**
   * In every reachable state, the candidates of a live query are, without overlap, the
   * partitions it still waits for and those it was handed, and the counters say so.
   */
  lemma Conservation(ws: seq<World>, actions: seq<Action>, i: nat, x: Uuid)
    requires Run(ws, actions) && i < |ws| && x in ws[i].q.queries
    ensures x in ws[i].cand && x in ws[i].handed && x in ws[i].inFlight
    ensures var w, st := ws[i], ws[i].q.queries[x];
            var pending := Pending(All(w.q), x);
            && w.cand[x] == w.handed[x] + pending && w.handed[x] !! pending
            && |pending| + st.scheduled == st.candidates
            && st.completed <= st.scheduled <= st.requested
            && |w.inFlight[x]| == st.scheduled - st.completed
  {
    hide Structure, All, Pending, Run;
    RunInvariant(ws, actions, i);
    assert Accounted(ws[i], x);
    var w := ws[i];
    assert |w.cand[x]| == |w.handed[x]| + |Pending(All(w.q), x)|;
  }

  /** In every reachable state each partition is queued once, and only for live queries. */
  lemma QueuedOnce(ws: seq<World>, actions: seq<Action>, i: nat)
    requires Run(ws, actions) && i < |ws|
    ensures var es := ws[i].q.active + ws[i].q.inactive;
            && (forall j, k :: 0 <= j < k < |es| ==> es[j].partition != es[k].partition)
            && (forall j, x :: 0 <= j < |es| && x in es[j].queries ==> x in ws[i].q.queries)
  {
    hide Run;
    RunInvariant(ws, actions, i);
    var q, es := ws[i].q, ws[i].q.active + ws[i].q.inactive;
    assert All(q) == multiset(es);
    hide Accounted;
    forall j, k | 0 <= j < k < |es|
      ensures es[j].partition != es[k].partition
    {
      DistinctAt(es, j, k);
    }
    forall j, x | 0 <= j < |es| && x in es[j].queries
      ensures x in q.queries
    {
      assert es[j] in multiset(es);
      assert EntryOk(es[j], q.queries.Keys);
    }
  }

  lemma DistinctAt(es: seq<Entry>, j: nat, k: nat)
    requires Unique(multiset(es)) && j < k < |es|
    ensures es[j].partition != es[k].partition
  {
    assert es == es[..k] + [es[k]] + es[k + 1..];
    assert es[..k] == es[..j] + [es[j]] + es[j + 1..k];
    assert multiset(es) == multiset(es[..j]) + multiset{es[j]} + multiset(es[j + 1..k]) + multiset{es[k]}
                           + multiset(es[k + 1..]);
    assert es[j] in multiset(es) && es[k] in multiset(es);
  }

  lemma HandedGrows(w: World, a: Action, w': World, x: Uuid)
    requires Step(w, a, w') && w.cand.Keys == w.handed.Keys && x in w.handed
    ensures x in w'.handed && w.handed[x] <= w'.handed[x]
  {
    hide QueueCode.Next, Inserted, Activated;
  }

  lemma {:induction false} HandedForever(ws: seq<World>, actions: seq<Action>, i: nat, j: nat, x: Uuid)
    requires Run(ws, actions) && i <= j < |ws| && x in ws[i].handed
    ensures x in ws[j].handed && ws[i].handed[x] <= ws[j].handed[x]
    decreases j - i
  {
    hide Step;
    if i < j {
      HandedForever(ws, actions, i, j - 1, x);
      RunInvariant(ws, actions, j - 1);
      HandedGrows(ws[j - 1], actions[j - 1], ws[j], x);
    }
  }

  /** What next hands out, it did not hand out before. */
  lemma NextIsFresh(w: World, w': World, x: Uuid)
    requires Invariant(w) && Step(w, Next, w')
    requires var r := QueueCode.Next(w.q).1; r.Some? && x in r.value.queries
    ensures x in w.handed && x in w'.handed
    ensures var p := QueueCode.Next(w.q).1.value.partition; p !in w.handed[x] && p in w'.handed[x]
  {
    hide Structure, Pending, All, Charge, QueueCode.Next;
    NextStructure(w.q);
    assert Accounted(w, x);
  }

  /** No query is handed the same partition twice in a run. */
  lemma NeverTwice(ws: seq<World>, actions: seq<Action>, i: nat, j: nat, x: Uuid)
    requires Run(ws, actions) && i < j < |actions| && actions[i] == Next && actions[j] == Next
    requires var r := QueueCode.Next(ws[i].q).1; r.Some? && x in r.value.queries
    requires var r := QueueCode.Next(ws[j].q).1; r.Some? && x in r.value.queries
    ensures QueueCode.Next(ws[i].q).1.value.partition != QueueCode.Next(ws[j].q).1.value.partition
  {
    hide QueueCode.Next, Invariant, Step;
    RunInvariant(ws, actions, i);
    RunInvariant(ws, actions, j);
    NextIsFresh(ws[i], ws[i + 1], x);
    NextIsFresh(ws[j], ws[j + 1], x);
    HandedForever(ws, actions, i + 1, j, x);
  }

  /**
   * No lost wake-up: in every reachable state, next comes back empty-handed exactly if no
   * entry in either list has a query with credit; otherwise what it hands out is the part
   * with credit of an entry of the highest stored priority.
   */
  lemma NoLostWakeUp(ws: seq<World>, actions: seq<Action>, i: nat)
    requires Run(ws, actions) && i < |ws|
    ensures var q := ws[i].q;
            && (QueueCode.Next(q).1.None? <==> forall e :: e in All(q) ==> !Creditable(q.queries, e))
            && (QueueCode.Next(q).1.Some? ==>
                  exists e :: Foremost(q, e) && QueueCode.Next(q).1.value == Scheduled(q.queries, e))
  {
    hide QueueCode.Next, Run, Structure, Foremost, Creditable, All;
    RunInvariant(ws, actions, i);
    NextChoice(ws[i].q);
  }

  /** When next comes back empty-handed, every live query has got all it asked for, or all there is. */
  lemma Drained(ws: seq<World>, actions: seq<Action>, i: nat, x: Uuid)
    requires Run(ws, actions) && i < |ws| && QueueCode.Next(ws[i].q).1.None? && x in ws[i].q.queries
    ensures x in ws[i].cand && x in ws[i].handed
    ensures ws[i].handed[x] == ws[i].cand[x] || ws[i].q.queries[x].scheduled == ws[i].q.queries[x].requested
  {
    hide QueueCode.Next, Run, Structure;
    RunInvariant(ws, actions, i);
    NextChoice(ws[i].q);
    var w := ws[i];
    assert Accounted(w, x);
    if Pending(All(w.q), x) != {} {
      var p :| p in Pending(All(w.q), x);
      var e :| e in All(w.q) && x in e.queries && e.partition == p;
      assert !Creditable(w.q.queries, e);
    }
  }

  /** The client is told "done" exactly when all it asked for is handed out and completed. */
  lemma DoneMeansIdle(ws: seq<World>, actions: seq<Action>, i: nat, x: Uuid, p: Uuid)
    requires Run(ws, actions) && i < |actions| && actions[i] == Complete(x, p) && x in ws[i].q.queries
    ensures var st := ws[i].q.queries[x];
            && x in ws[i + 1].inFlight
            && (QueueCode.Complete(ws[i].q, x).1.Some? <==> ws[i + 1].inFlight[x] == {} && st.scheduled == st.requested)
            && (QueueCode.Complete(ws[i].q, x).1.Some? ==> QueueCode.Complete(ws[i].q, x).1.value == st.client)
  {
    hide Structure, All, Pending, Balanced;
    RunInvariant(ws, actions, i);
    var w := ws[i];
    assert Step(w, actions[i], ws[i + 1]);
    assert Accounted(w, x);
    BalancedCompleted(w.q.queries[x], w.cand[x], w.handed[x], w.inFlight[x], Pending(All(w.q), x), p);
  }

  /** A completion erases its query exactly when every candidate is completed, and no entry refers to it then. */
  lemma ErasedMeansFinished(ws: seq<World>, actions: seq<Action>, i: nat, x: Uuid, p: Uuid)
    requires Run(ws, actions) && i < |actions| && actions[i] == Complete(x, p) && x in ws[i].q.queries
    ensures x in ws[i + 1].inFlight && x in ws[i + 1].handed && x in ws[i + 1].cand
    ensures x !in ws[i + 1].q.queries
            <==> ws[i + 1].inFlight[x] == {} && ws[i + 1].handed[x] == ws[i + 1].cand[x]
    ensures x !in ws[i + 1].q.queries ==> !Reachable(ws[i].q, x) && !Reachable(ws[i + 1].q, x)
  {
    hide Structure, All, Pending, Reachable, Balanced;
    RunInvariant(ws, actions, i);
    var w := ws[i];
    assert Step(w, actions[i], ws[i + 1]);
    assert Accounted(w, x);
    BalancedCompleted(w.q.queries[x], w.cand[x], w.handed[x], w.inFlight[x], Pending(All(w.q), x), p);
    ReachablePending(w.q, x);
    ReachablePending(ws[i + 1].q, x);
    SameEntries(w.q, ws[i + 1].q);
  }

  lemma SameEntries(q: Queue, q': Queue)
    requires q'.active == q.active && q'.inactive == q.inactive
    ensures All(q') == All(q)
  {
  }
}
