// The priorities stored with the entries of the query queue, and the queries they stand for.
module QueuePriorities {
  import opened Options
  import opened QueueCode
  import opened QueueEntries
  import opened QueueSteps
  import opened QueueProtocol

  /** What an entry's stored priority has over the priorities of its queries. */
  function Excess(queries: map<Uuid, QueryState>, e: Entry): int {
    e.priority - TotalPriority(queries, e.queries)
  }

  // -- sums of priorities ---------------------------------------------------------------------

  lemma {:induction false} TotalSame(m: map<Uuid, QueryState>, m': map<Uuid, QueryState>, qids: seq<Uuid>)
    requires forall x :: x in qids ==> x in m && x in m' && m[x].priority == m'[x].priority
    ensures TotalPriority(m, qids) == TotalPriority(m', qids)
  {
    if qids != [] {
      TotalSame(m, m', qids[..|qids| - 1]);
    }
  }

  lemma {:induction false} TotalConcat(m: map<Uuid, QueryState>, a: seq<Uuid>, b: seq<Uuid>)
    ensures TotalPriority(m, a + b) == TotalPriority(m, a) + TotalPriority(m, b)
  {
    if b == [] {
      assert a + b == a;
    } else {
      TotalConcat(m, a, b[..|b| - 1]);
      assert (a + b)[..|a + b| - 1] == a + b[..|b| - 1];
    }
  }

  lemma TotalOne(m: map<Uuid, QueryState>, x: Uuid)
    requires x in m
    ensures TotalPriority(m, [x]) == m[x].priority
  {
    assert TotalPriority(m, [x][..0]) == 0;
  }

  lemma {:induction false} TotalRemoved(m: map<Uuid, QueryState>, qids: seq<Uuid>, x: Uuid)
    requires x in qids && x in m
    ensures TotalPriority(m, RemoveFirst(qids, x)) + m[x].priority == TotalPriority(m, qids)
  {
    var rest := qids[1..];
    assert qids == [qids[0]] + rest;
    TotalConcat(m, [qids[0]], rest);
    if qids[0] == x {
      TotalOne(m, x);
    } else {
      TotalRemoved(m, rest, x);
      TotalConcat(m, [qids[0]], RemoveFirst(rest, x));
    }
  }

  /** Entries of the same partition with the same schema and mark. */
  predicate SameMarks(e: Entry, f: Entry) {
    e.partition == f.partition && e.schema == f.schema && e.erased == f.erased
  }

  // -- what a step does to the excess of an entry -----------------------------------------------

  ghost predicate Queued(q: Queue, p: Uuid) {
    exists e :: e in All(q) && e.partition == p
  }

  ghost predicate Listed(es: seq<Entry>, p: Uuid) {
    exists e :: e in multiset(es) && e.partition == p
  }

  /**
   * The priorities of queries that were removed since the entry of a partition was made or
   * set aside: a removal adds that of its query, and a new or newly set aside entry has none.
   */
  ghost function StaleAfter(q: Queue, a: Action, q': Queue, p: Uuid, stale: int): int {
    match a
    case Insert(_, _, _) => if Queued(q, p) then stale else 0
    case Next => if Listed(q.active, p) && Listed(q'.inactive, p) then 0 else stale
    case Remove(x) => stale + (if x in q.queries && p in Pending(All(q), x) then q.queries[x].priority else 0)
    case _ => stale
  }

  lemma ExcessSame(m: map<Uuid, QueryState>, m': map<Uuid, QueryState>, e: Entry)
    requires forall x :: x in e.queries ==> x in m && x in m' && m[x].priority == m'[x].priority
    ensures Excess(m, e) == Excess(m', e)
  {
    TotalSame(m, m', e.queries);
  }

  lemma JoinExcess(m: map<Uuid, QueryState>, e: Entry, qid: Uuid)
    requires qid in m
    ensures Excess(m, Join(e, qid, m[qid].priority)) == Excess(m, e)
  {
    TotalConcat(m, e.queries, [qid]);
    TotalOne(m, qid);
  }

  lemma PlaceNew(q: Queue, qid: Uuid, priority: nat, c: Candidate)
    requires Find(q.active, c.partition) == |q.active| && Find(q.inactive, c.partition) == |q.inactive|
    ensures All(Place(q, qid, priority, c)) == All(q) + multiset{Entry(c.partition, c.schema, priority, [qid], false)}
    ensures !Queued(q, c.partition)
  {
    FindNone(q.active, c.partition);
    FindNone(q.inactive, c.partition);
  }

  /** An entry after one more candidate was placed: as before, joined, or new. */
  lemma PlaceOrigin(q: Queue, qid: Uuid, c: Candidate, e': Entry) returns (e: Option<Entry>)
    requires qid in q.queries && e' in All(Place(q, qid, q.queries[qid].priority, c))
    ensures e.Some? ==> e.value in All(q) && SameMarks(e.value, e')
    ensures e.Some? ==> Excess(q.queries, e') == Excess(q.queries, e.value)
    ensures e.None? ==> !Queued(q, e'.partition) && Excess(q.queries, e') == 0
    ensures e.None? ==> !e'.erased && Candidate(e'.partition, e'.schema) == c
  {
    hide Excess, All, Place, Find;
    var priority := q.queries[qid].priority;
    var i, j := Find(q.active, c.partition), Find(q.inactive, c.partition);
    if i < |q.active| {
      PlaceActive(q, qid, priority, c);
      JoinExcess(q.queries, q.active[i], qid);
      e := Some(if e' in All(q) then e' else q.active[i]);
    } else if j < |q.inactive| {
      PlaceInactive(q, qid, priority, c);
      JoinExcess(q.queries, q.inactive[j], qid);
      e := Some(if e' in All(q) then e' else q.inactive[j]);
    } else {
      var new' := Entry(c.partition, c.schema, priority, [qid], false);
      PlaceNew(q, qid, priority, c);
      NewExcess(q.queries, new', qid);
      e := if e' in All(q) then Some(e') else None;
    }
  }

  lemma NewExcess(m: map<Uuid, QueryState>, e: Entry, qid: Uuid)
    requires qid in m && e.queries == [qid] && e.priority == m[qid].priority
    ensures Excess(m, e) == 0
  {
    TotalOne(m, qid);
  }

  lemma PlacePersists(q: Queue, qid: Uuid, priority: nat, c: Candidate, p: Uuid)
    requires Queued(q, p)
    ensures Queued(Place(q, qid, priority, c), p)
  {
    hide All, Place, Find;
    var q' := Place(q, qid, priority, c);
    var e :| e in All(q) && e.partition == p;
    var i, j := Find(q.active, c.partition), Find(q.inactive, c.partition);
    if i < |q.active| {
      PlaceActive(q, qid, priority, c);
      assert e in All(q') || (e == q.active[i] && Join(e, qid, priority) in All(q'));
    } else if j < |q.inactive| {
      PlaceInactive(q, qid, priority, c);
      assert e in All(q') || (e == q.inactive[j] && Join(e, qid, priority) in All(q'));
    } else {
      PlaceNew(q, qid, priority, c);
      assert e in All(q');
    }
  }

  lemma {:induction false} AllPersist(q: Queue, qid: Uuid, priority: nat, cs: seq<Candidate>, p: Uuid)
    requires Queued(q, p)
    ensures Queued(PlaceAll(q, qid, priority, cs), p)
  {
    if cs != [] {
      AllPersist(q, qid, priority, cs[..|cs| - 1], p);
      PlacePersists(PlaceAll(q, qid, priority, cs[..|cs| - 1]), qid, priority, cs[|cs| - 1], p);
    }
  }

  lemma {:induction false} PlaceAllOrigin(q: Queue, qid: Uuid, cs: seq<Candidate>, e': Entry) returns (e: Option<Entry>)
    requires qid in q.queries && e' in All(PlaceAll(q, qid, q.queries[qid].priority, cs))
    ensures e.Some? ==> e.value in All(q) && SameMarks(e.value, e')
    ensures e.Some? ==> Excess(q.queries, e') == Excess(q.queries, e.value)
    ensures e.None? ==> !Queued(q, e'.partition) && Excess(q.queries, e') == 0
    ensures e.None? ==> !e'.erased && Candidate(e'.partition, e'.schema) in cs
    decreases |cs|
  {
    hide Place, All, Excess;
    var priority := q.queries[qid].priority;
    if cs == [] {
      e := Some(e');
    } else {
      var init, c := cs[..|cs| - 1], cs[|cs| - 1];
      var q0 := PlaceAll(q, qid, priority, init);
      PlaceAllQueries(q, qid, priority, init);
      e := PlaceOrigin(q0, qid, c, e');
      if e.Some? {
        e := PlaceAllOrigin(q, qid, init, e.value);
      } else if Queued(q, e'.partition) {
        AllPersist(q, qid, priority, init, e'.partition);
      }
    }
  }

  lemma InsertOrigin(q: Queue, q': Queue, qid: Uuid, st: QueryState, gs: seq<Group>, e': Entry)
    returns (e: Option<Entry>)
    requires Structure(q) && Inserted(q, q', qid, st, gs) && InsertAccepted(q, qid, st, gs) && e' in All(q')
    ensures e.Some? ==> e.value in All(q) && SameMarks(e.value, e')
    ensures e.Some? ==> Excess(q'.queries, e') == Excess(q.queries, e.value)
    ensures e.None? ==> !Queued(q, e'.partition) && Excess(q'.queries, e') == 0
    ensures e.None? ==> !e'.erased && Candidate(e'.partition, e'.schema) in Candidates(gs)
  {
    hide PlaceAll, Excess, Candidates;
    var q1 := q.(queries := q.queries[qid := st]);
    InsertedQueries(q, q', qid, st, gs);
    assert All(q1) == All(q);
    assert All(q') == All(PlaceAll(q1, qid, st.priority, Candidates(gs)));
    e := PlaceAllOrigin(q1, qid, Candidates(gs), e');
    if e.Some? {
      assert EntryOk(e.value, q.queries.Keys);
      ExcessSame(q.queries, q1.queries, e.value);
    }
  }

  /** The queries of an entry that have no credit. */
  ghost predicate Leftover(queries: map<Uuid, QueryState>, e: Entry, f: Entry) {
    forall x :: x in f.queries <==> x in e.queries && !HasCredit(queries, x)
  }

  /** An entry after next: untouched in its list, or set aside with nothing in excess. */
  lemma {:induction false} NextOrigin(q: Queue, e': Entry) returns (e: Entry)
    requires EntriesOk(multiset(q.active), q.queries.Keys) && e' in All(QueueCode.Next(q).0)
    ensures SameMarks(e, e')
    ensures || (e == e' && e in multiset(q.active) && e' in multiset(QueueCode.Next(q).0.active))
            || (e == e' && e in multiset(q.inactive) && e' in multiset(QueueCode.Next(q).0.inactive))
            || (&& e in multiset(q.active) && e' in multiset(QueueCode.Next(q).0.inactive)
                && Excess(q.queries, e') == 0 && Leftover(q.queries, e, e'))
    decreases |q.active|
  {
    e := e';
    if q.active != [] {
      hide Excess, Leftover;
      var p, last := Pop(q), q.active[|q.active| - 1];
      assert q.active == p.active + [last];
      SetAsideExcess(q.queries, last);
      if Scheduled(q.queries, last).queries == [] {
        assert QueueCode.Next(q) == QueueCode.Next(p);
        e := NextOrigin(p, e');
      } else {
        assert QueueCode.Next(q).0.active == p.active && QueueCode.Next(q).0.inactive == p.inactive;
      }
      if e in multiset(p.inactive) && e !in multiset(q.inactive) && e == e' && e' in multiset(QueueCode.Next(q).0.inactive) {
        e := last;
      }
    }
  }

  lemma SetAsideExcess(queries: map<Uuid, QueryState>, e: Entry)
    requires EntryOk(e, queries.Keys)
    ensures forall f :: f in multiset(SetAside(queries, e)) ==>
              SameMarks(f, e) && Excess(queries, f) == 0 && Leftover(queries, e, f)
  {
    SetAsideOk(queries, e);
    forall x
      ensures x in WithoutCredit(queries, e.queries) <==> x in e.queries && !HasCredit(queries, x)
    {
      CreditMembers(queries, e.queries, x);
    }
  }

  lemma RemoveOrigin(q: Queue, qid: Uuid, e': Entry) returns (e: Entry)
    requires Structure(q) && qid in q.queries && e' in All(QueueCode.Remove(q, qid))
    ensures e in All(q) && SameMarks(e, e')
    ensures Excess(QueueCode.Remove(q, qid).queries, e')
         == Excess(q.queries, e) + (if qid in e.queries then q.queries[qid].priority else 0)
  {
    var es := q.active + q.inactive;
    RemovedAll(q, qid);
    assert forall e :: e in es ==> e in All(q) && EntryOk(e, q.queries.Keys);
    hide Unique, Waiting, Strip, RemoveFirst, All;
    StripMembers(es, qid, e');
    e :| e in es && e' == StripEntry(e, qid);
    StripExcess(q.queries, e, qid);
  }

  lemma StripExcess(queries: map<Uuid, QueryState>, e: Entry, qid: Uuid)
    requires EntryOk(e, queries.Keys) && qid in queries
    ensures Excess(queries - {qid}, StripEntry(e, qid))
         == Excess(queries, e) + (if qid in e.queries then queries[qid].priority else 0)
  {
    hide RemoveFirst;
    RemoveFirstMembers(e.queries, qid);
    if qid in e.queries {
      TotalRemoved(queries, e.queries, qid);
    } else {
      RemoveFirstAbsent(e.queries, qid);
    }
    TotalSame(queries, queries - {qid}, StripEntry(e, qid).queries);
  }

  lemma EraseOrigin(q: Queue, pid: Uuid, e': Entry) returns (e: Entry)
    requires e' in All(MarkErased(q, pid).0)
    ensures e in All(q) && e.priority == e'.priority && e.queries == e'.queries
    ensures e.partition == e'.partition && e.schema == e'.schema
    ensures Unique(All(q)) ==> e'.erased == (e.erased || pid == e'.partition)
  {
    e := e';
    if MarkErased(q, pid).1 {
      var f := EraseAll(q, pid);
      if e' !in All(q) {
        e := f;
      }
    }
  }

  // -- every step, every run ------------------------------------------------------------------

  /** Every entry after a step comes from one before it with the stale priority the step says,
      or is new and has none. */
  lemma Origin(w: World, a: Action, w': World, e': Entry) returns (e: Option<Entry>)
    requires Invariant(w) && Step(w, a, w') && e' in All(w'.q)
    ensures e.Some? ==> e.value in All(w.q) && e.value.partition == e'.partition && e.value.schema == e'.schema
    ensures e.Some? ==> e'.erased == (e.value.erased || a == Erase(e'.partition))
    ensures e.Some? ==> Excess(w'.q.queries, e')
                        == StaleAfter(w.q, a, w'.q, e'.partition, Excess(w.q.queries, e.value))
    ensures e.None? ==> Excess(w'.q.queries, e') == 0 && a.Insert? && !Queued(w.q, e'.partition)
    ensures e.None? ==> !e'.erased && Candidate(e'.partition, e'.schema) in Candidates(a.groups)
  {
    hide Excess, Structure, All, Inserted, Pending, Balanced, QueueCode.Next, QueueCode.Remove, MarkErased;
    e := Some(e');
    match a
    case Insert(qid, st, gs) =>
      if InsertAccepted(w.q, qid, st, gs) {
        e := InsertOrigin(w.q, w'.q, qid, st, gs, e');
      }
    case Activate(qid, n) =>
      ActivateOrigin(w.q, w'.q, qid, n, e');
    case Next =>
      var f := NextStep(w, w', e');
      e := Some(f);
    case Complete(qid, pid) =>
      CompleteOrigin(w, qid, pid, w', e');
    case Remove(qid) =>
      if qid in w.q.queries {
        var f := RemoveOrigin(w.q, qid, e');
        StructureUnique(w.q);
        PendingAt(All(w.q), f, qid);
        e := Some(f);
      } else {
        assert QueueCode.Remove(w.q, qid) == w.q by { RemoveUnknown(w.q, qid); }
      }
    case Erase(pid) =>
      StructureUnique(w.q);
      var f := EraseOrigin(w.q, pid, e');
      ErasedQueries(w.q, pid);
      SameWeight(w.q.queries, f, e');
      e := Some(f);
  }

  lemma StructureUnique(q: Queue)
    requires Structure(q)
    ensures Unique(All(q)) && EntriesOk(All(q), q.queries.Keys)
  {
  }

  lemma RemoveUnknown(q: Queue, qid: Uuid)
    requires qid !in q.queries
    ensures QueueCode.Remove(q, qid) == q
  {
  }

  lemma ErasedQueries(q: Queue, pid: Uuid)
    ensures MarkErased(q, pid).0.queries == q.queries
  {
  }

  lemma SameWeight(m: map<Uuid, QueryState>, e: Entry, f: Entry)
    requires e.priority == f.priority && e.queries == f.queries
    ensures Excess(m, e) == Excess(m, f)
  {
  }

  lemma ActivateOrigin(q: Queue, q': Queue, qid: Uuid, n: nat, e: Entry)
    requires Structure(q) && Activated(q, q', qid, n) && e in All(q')
    ensures e in All(q) && Excess(q'.queries, e) == Excess(q.queries, e)
  {
    if qid in q.queries {
      ActivateStructure(q, q', qid, n);
      assert EntryOk(e, q.queries.Keys);
      ExcessSame(q.queries, q'.queries, e);
    }
  }

  lemma CompleteOrigin(w: World, qid: Uuid, pid: Uuid, w': World, e: Entry)
    requires Invariant(w) && Step(w, Complete(qid, pid), w') && e in All(w'.q)
    ensures e in All(w.q) && Excess(w'.q.queries, e) == Excess(w.q.queries, e)
  {
    hide Structure, Accounted, EntryOk, QueueCode.Complete, Excess, All;
    CompleteKeeps(w, qid, pid, w');
    StructureUnique(w.q);
    StructureUnique(w'.q);
    CompleteLists(w.q, qid);
    CompleteWeights(w.q, qid, e);
  }

  lemma CompleteLists(q: Queue, qid: Uuid)
    ensures All(QueueCode.Complete(q, qid).0) == All(q)
  {
  }

  lemma CompleteWeights(q: Queue, qid: Uuid, e: Entry)
    requires EntryOk(e, q.queries.Keys) && EntryOk(e, QueueCode.Complete(q, qid).0.queries.Keys)
    ensures Excess(QueueCode.Complete(q, qid).0.queries, e) == Excess(q.queries, e)
  {
    hide Excess;
    ExcessSame(q.queries, QueueCode.Complete(q, qid).0.queries, e);
  }

  lemma NextStep(w: World, w': World, e': Entry) returns (e: Entry)
    requires Invariant(w) && Step(w, Next, w') && e' in All(w'.q)
    ensures e in All(w.q) && SameMarks(e, e')
    ensures Excess(w'.q.queries, e') == StaleAfter(w.q, Next, w'.q, e'.partition, Excess(w.q.queries, e))
  {
    var q, q' := w.q, w'.q;
    assert q' == QueueCode.Next(q).0;
    assert EntriesOk(multiset(q.active), q.queries.Keys);
    NextKeeps(w, w');
    StructureUnique(q);
    StructureUnique(q');
    e := NextOrigin(q, e');
    NextWeights(q, e');
    hide QueueCode.Next, Structure, EntriesOk, Excess;
    if e in multiset(q.active) && e' in multiset(q'.inactive) {
      assert Listed(q.active, e'.partition) && Listed(q'.inactive, e'.partition);
    }
    BothLists(q, e);
    BothLists(q', e');
  }

  /** Next changes no priority of a query that an entry still names. */
  lemma NextWeights(q: Queue, e': Entry)
    requires Structure(q) && e' in All(QueueCode.Next(q).0)
    ensures Excess(QueueCode.Next(q).0.queries, e') == Excess(q.queries, e')
  {
    hide Excess, QueueCode.Next, Charge;
    NextStructure(q);
    var (q', r) := QueueCode.Next(q);
    if r.Some? {
      Charged(q.queries, r.value.queries);
      assert EntryOk(e', q'.queries.Keys);
      ExcessSame(q.queries, q'.queries, e');
    }
  }

  /** A partition is in one of the lists only. */
  lemma BothLists(q: Queue, e: Entry)
    requires Unique(All(q)) && e in All(q)
    ensures e in multiset(q.active) ==> !Listed(q.inactive, e.partition)
    ensures e in multiset(q.inactive) ==> !Listed(q.active, e.partition)
  {
    forall f | f in multiset(q.active) && f.partition == e.partition
      ensures f == e && e !in multiset(q.inactive)
    {
      assert f in All(q);
      assert All(q)[e] == 1;
    }
    forall f | f in multiset(q.inactive) && f.partition == e.partition
      ensures f == e && e !in multiset(q.active)
    {
      assert f in All(q);
      assert All(q)[e] == 1;
    }
  }

  ghost function Stale(ws: seq<World>, actions: seq<Action>, i: nat, p: Uuid): (s: int)
    requires |ws| == |actions| + 1 && i < |ws|
    ensures s >= 0
  {
    if i == 0 then 0
    else StaleAfter(ws[i - 1].q, actions[i - 1], ws[i].q, p, Stale(ws, actions, i - 1, p))
  }

  /**
   * In every reachable state, an entry's stored priority is the sum of the priorities of its
   * queries and of those that were removed since it was made or set aside.
   */
  lemma {:induction false} StoredPriority(ws: seq<World>, actions: seq<Action>, i: nat, e: Entry)
    requires Run(ws, actions) && i < |ws| && e in All(ws[i].q)
    ensures e.priority == TotalPriority(ws[i].q.queries, e.queries) + Stale(ws, actions, i, e.partition)
    ensures TotalPriority(ws[i].q.queries, e.queries) <= e.priority
    decreases i
  {
    hide Step, Invariant, StaleAfter, TotalPriority;
    if i > 0 {
      RunInvariant(ws, actions, i - 1);
      var f := Origin(ws[i - 1], actions[i - 1], ws[i], e);
      if f.Some? {
        StoredPriority(ws, actions, i - 1, f.value);
      } else {
        NewHasNone(ws[i - 1].q, actions[i - 1], ws[i].q, e.partition, Stale(ws, actions, i - 1, e.partition));
      }
    }
  }

  lemma NewHasNone(q: Queue, a: Action, q': Queue, p: Uuid, stale: int)
    requires a.Insert? && !Queued(q, p)
    ensures StaleAfter(q, a, q', p, stale) == 0
  {
  }

  /** Whether the entry of a partition was marked since it was made. */
  ghost function Marked(ws: seq<World>, actions: seq<Action>, i: nat, p: Uuid): bool
    requires |ws| == |actions| + 1 && i < |ws|
  {
    && i > 0
    && var before, a := Marked(ws, actions, i - 1, p), actions[i - 1];
       if a.Insert? then Queued(ws[i - 1].q, p) && before else before || a == Erase(p)
  }

  /** In every reachable state, an entry is marked as erased exactly if its partition was
      erased since the entry was made. */
  lemma {:induction false} MarkedExactly(ws: seq<World>, actions: seq<Action>, i: nat, e: Entry)
    requires Run(ws, actions) && i < |ws| && e in All(ws[i].q)
    ensures e.erased == Marked(ws, actions, i, e.partition)
    decreases i
  {
    hide Step, Invariant, StaleAfter, TotalPriority, Queued;
    if i > 0 {
      RunInvariant(ws, actions, i - 1);
      var f := Origin(ws[i - 1], actions[i - 1], ws[i], e);
      if f.Some? {
        MarkedExactly(ws, actions, i - 1, f.value);
        assert Queued(ws[i - 1].q, e.partition) by { InQueue(ws[i - 1].q, f.value); }
      }
    }
  }

  lemma InQueue(q: Queue, e: Entry)
    requires e in All(q)
    ensures Queued(q, e.partition)
  {
  }

  /**
   * In every reachable state, what next hands out is an entry's partition with its schema and
   * mark, for exactly the queries of the entry that have credit; and everything that is
   * inactive afterwards was so before, or is what is left of an active entry: its queries
   * without credit, with its schema and mark.
   */
  lemma HandedOut(ws: seq<World>, actions: seq<Action>, i: nat)
    requires Run(ws, actions) && i < |ws|
    ensures var (q', r) := QueueCode.Next(ws[i].q);
            && (r.Some? ==>
                  exists e :: && Foremost(ws[i].q, e) && SameMarks(r.value, e)
                              && forall x :: x in r.value.queries <==> x in e.queries && HasCredit(ws[i].q.queries, x))
            && (forall f :: f in multiset(q'.inactive) ==>
                  f in multiset(ws[i].q.inactive) || exists e :: && e in multiset(ws[i].q.active) && SameMarks(e, f)
                                                                      && Leftover(ws[i].q.queries, e, f))
  {
    hide Structure, Invariant, All, Foremost, Creditable, QueueCode.Next, HasCredit, SameMarks, Leftover;
    var q := ws[i].q;
    var (q', r) := QueueCode.Next(q);
    RunInvariant(ws, actions, i);
    NextChoice(q) by { InvariantStructure(ws[i]); }
    if r.Some? {
      var e :| Foremost(q, e) && r.value == Scheduled(q.queries, e);
      ScheduledMarks(q.queries, e);
    }
    forall f | f in multiset(q'.inactive)
      ensures || f in multiset(q.inactive)
              || exists e :: e in multiset(q.active) && SameMarks(e, f) && Leftover(q.queries, e, f)
    {
      InvariantStructure(ws[i]);
      NextStructure(q);
      StructureUnique(q');
      BothLists(q', f);
      var e := NextOrigin(q, f);
    }
  }

  lemma InvariantStructure(w: World)
    requires Invariant(w)
    ensures Structure(w.q) && EntriesOk(multiset(w.q.active), w.q.queries.Keys)
    ensures forall f :: f in multiset(QueueCode.Next(w.q).0.inactive) ==> f in All(QueueCode.Next(w.q).0)
  {
  }

  lemma ScheduledMarks(queries: map<Uuid, QueryState>, e: Entry)
    ensures SameMarks(Scheduled(queries, e), e)
    ensures forall x :: x in Scheduled(queries, e).queries <==> x in e.queries && HasCredit(queries, x)
  {
    forall x
      ensures x in Scheduled(queries, e).queries <==> x in e.queries && HasCredit(queries, x)
    {
      CreditMembers(queries, e.queries, x);
    }
  }

  /**
   * A removed query can leave its priority behind: after the query of priority 5 is gone, the
   * entry with a query of priority 1 is still scheduled before that with one of priority 3.
   */
  lemma PriorityLeftBehind(s: Schema)
    ensures var st := (n: nat) => QueryState(n, 0, 1, 1, 0, 0);
            var queries := map[1 := st(5), 2 := st(1), 3 := st(3)];
            var q := Queue(queries, [Entry(20, s, 3, [3], false), Entry(10, s, 6, [1, 2], false)], []);
            var q' := QueueCode.Remove(q, 1);
            && q'.active == [Entry(20, s, 3, [3], false), Entry(10, s, 6, [2], false)]
            && TotalPriority(q'.queries, [2]) == 1 && TotalPriority(q'.queries, [3]) == 3
            && QueueCode.Next(q').1 == Some(Entry(10, s, 0, [2], false))
  {
    var st := (n: nat) => QueryState(n, 0, 1, 1, 0, 0);
    var queries := map[1 := st(5), 2 := st(1), 3 := st(3)];
    var a, b, b' := Entry(20, s, 3, [3], false), Entry(10, s, 6, [1, 2], false), Entry(10, s, 6, [2], false);
    var q := Queue(queries, [a, b], []);
    var q' := QueueCode.Remove(q, 1);
    assert [a, b][..1] == [a] && [a][..0] == [];
    assert RemoveFirst([1, 2], 1) == [2];
    assert Strip([a], 1) == [a];
    assert Strip([a, b], 1) == [a, b'];
    TotalOne(q'.queries, 2);
    TotalOne(q'.queries, 3);
    assert [2][..0] == [];
    assert WithCredit(q'.queries, [2]) == [2];
  }
}
