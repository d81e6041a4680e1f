// What each queue operation does to the structure of the queue and to the pending work.
module QueueSteps {
  import opened Options
  import opened QueueCode
  import opened QueueEntries

  /** Inactive entries wait for credit: none of their queries has any. */
  ghost predicate Waiting(q: Queue) {
    forall e, x :: e in multiset(q.inactive) && x in e.queries ==> !HasCredit(q.queries, x)
  }

  ghost predicate Structure(q: Queue) {
    Unique(All(q)) && EntriesOk(All(q), q.queries.Keys) && Sorted(q.active) && Waiting(q)
  }

  // -- insert -------------------------------------------------------------------------

  ghost predicate SubsetOf(es: seq<Entry>, fs: seq<Entry>) {
    forall e :: e in multiset(es) ==> e in multiset(fs)
  }

  lemma SubsetSelf(es: seq<Entry>)
    ensures SubsetOf(es, es)
  {
  }

  lemma RemoveSubset(es: seq<Entry>, i: nat)
    requires i < |es|
    ensures SubsetOf(es[..i] + es[i + 1..], es)
  {
    RemoveMultiset(es, i);
  }

  lemma JoinOk(e: Entry, qid: Uuid, priority: nat, live: set<Uuid>)
    requires EntryOk(e, live) && qid in live && qid !in e.queries
    ensures EntryOk(Join(e, qid, priority), live)
  {
  }

  /** The entry of partition p after a query has joined it. */
  ghost predicate JoinedEntry(m: multiset<Entry>, p: Uuid, qid: Uuid, e': Entry, live: set<Uuid>) {
    && e'.partition == p && EntryOk(e', live)
    && forall x :: x in e'.queries <==> x == qid || p in Pending(m, x)
  }

  lemma JoinExisting(m: multiset<Entry>, e: Entry, qid: Uuid, priority: nat, live: set<Uuid>)
    requires Unique(m) && EntriesOk(m, live) && e in m
    requires qid in live && e.partition !in Pending(m, qid)
    ensures var e' := Join(e, qid, priority);
            var m' := m - multiset{e} + multiset{e'};
            && JoinedEntry(m, e.partition, qid, e', live)
            && Unique(m') && Changed(m, m', e.partition, Some(e'))
  {
    PendingAt(m, e, qid);
    JoinOk(e, qid, priority, live);
    Replaced(m, e, Join(e, qid, priority));
    forall x
      ensures x in Join(e, qid, priority).queries <==> x == qid || e.partition in Pending(m, x)
    {
      PendingAt(m, e, x);
    }
  }

  lemma JoinNew(m: multiset<Entry>, e': Entry, qid: Uuid, live: set<Uuid>)
    requires Unique(m) && qid in live && e'.queries == [qid]
    requires forall f :: f in m ==> f.partition != e'.partition
    ensures JoinedEntry(m, e'.partition, qid, e', live)
    ensures Unique(m + multiset{e'}) && Changed(m, m + multiset{e'}, e'.partition, Some(e'))
  {
    Added(m, e');
  }

  lemma PlaceActive(q: Queue, qid: Uuid, priority: nat, c: Candidate)
    requires Find(q.active, c.partition) < |q.active|
    ensures var q', e := Place(q, qid, priority, c), q.active[Find(q.active, c.partition)];
            && q'.inactive == q.inactive
            && e in All(q) && All(q') == All(q) - multiset{e} + multiset{Join(e, qid, priority)}
  {
    var i := Find(q.active, c.partition);
    UpdateMultiset(q.active, i, Join(q.active[i], qid, priority));
  }

  lemma PlaceInactive(q: Queue, qid: Uuid, priority: nat, c: Candidate)
    requires Find(q.active, c.partition) == |q.active|
    requires Find(q.inactive, c.partition) < |q.inactive|
    ensures var q', e := Place(q, qid, priority, c), q.inactive[Find(q.inactive, c.partition)];
            && SubsetOf(q'.inactive, q.inactive)
            && e in All(q) && All(q') == All(q) - multiset{e} + multiset{Join(e, qid, priority)}
  {
    hide SubsetOf;
    var j := Find(q.inactive, c.partition);
    RemoveMultiset(q.inactive, j);
    RemoveSubset(q.inactive, j);
  }

  lemma PlacedEntry(q: Queue, qid: Uuid, priority: nat, c: Candidate, live: set<Uuid>) returns (e': Entry)
    requires Unique(All(q)) && EntriesOk(All(q), live)
    requires qid in live && c.partition !in Pending(All(q), qid)
    ensures var q' := Place(q, qid, priority, c);
            && SubsetOf(q'.inactive, q.inactive) && Unique(All(q'))
            && Changed(All(q), All(q'), c.partition, Some(e'))
            && JoinedEntry(All(q), c.partition, qid, e', live)
  {
    hide Unique, EntriesOk, Pending, JoinedEntry, Changed, SubsetOf;
    SubsetSelf(q.inactive);
    var i, j := Find(q.active, c.partition), Find(q.inactive, c.partition);
    if i < |q.active| {
      PlaceActive(q, qid, priority, c);
      JoinExisting(All(q), q.active[i], qid, priority, live);
      e' := Join(q.active[i], qid, priority);
    } else if j < |q.inactive| {
      PlaceInactive(q, qid, priority, c);
      JoinExisting(All(q), q.inactive[j], qid, priority, live);
      e' := Join(q.inactive[j], qid, priority);
    } else {
      e' := Entry(c.partition, c.schema, priority, [qid], false);
      FindNone(q.active, c.partition);
      FindNone(q.inactive, c.partition);
      JoinNew(All(q), e', qid, live);
      assert All(Place(q, qid, priority, c)) == All(q) + multiset{e'};
    }
  }

  /** Placing a candidate makes exactly that partition pending for the query. */
  lemma Placed(q: Queue, qid: Uuid, priority: nat, c: Candidate, live: set<Uuid>)
    requires Unique(All(q)) && EntriesOk(All(q), live)
    requires qid in live && c.partition !in Pending(All(q), qid)
    ensures var q' := Place(q, qid, priority, c);
            && q'.queries == q.queries && SubsetOf(q'.inactive, q.inactive)
            && Unique(All(q')) && EntriesOk(All(q'), live)
            && forall x :: Pending(All(q'), x) == Pending(All(q), x) + (if x == qid then {c.partition} else {})
  {
    hide Unique, Pending, All, Find, SubsetOf;
    var q' := Place(q, qid, priority, c);
    var e' := PlacedEntry(q, qid, priority, c, live);
    forall x
      ensures Pending(All(q'), x) == Pending(All(q), x) + (if x == qid then {c.partition} else {})
    {
      PendingChanged(All(q), All(q'), c.partition, Some(e'), x);
    }
  }

  ghost predicate DistinctPartitions(cs: seq<Candidate>) {
    forall i, j :: 0 <= i < j < |cs| ==> cs[i].partition != cs[j].partition
  }

  ghost function Partitions(cs: seq<Candidate>): set<Uuid> {
    set i | 0 <= i < |cs| :: cs[i].partition
  }

  lemma {:induction false} AllPlaced(q: Queue, qid: Uuid, priority: nat, cs: seq<Candidate>, live: set<Uuid>)
    requires Unique(All(q)) && EntriesOk(All(q), live)
    requires qid in live && Pending(All(q), qid) == {} && DistinctPartitions(cs)
    ensures var q' := PlaceAll(q, qid, priority, cs);
            && q'.queries == q.queries && SubsetOf(q'.inactive, q.inactive)
            && Unique(All(q')) && EntriesOk(All(q'), live)
            && forall x :: Pending(All(q'), x) == Pending(All(q), x) + (if x == qid then Partitions(cs) else {})
  {
    hide Place, Unique, Pending, All, EntriesOk;
    if cs == [] {
      assert Partitions(cs) == {};
    } else {
      var init, c := cs[..|cs| - 1], cs[|cs| - 1];
      AllPlaced(q, qid, priority, init, live);
      assert c.partition !in Partitions(init);
      Placed(PlaceAll(q, qid, priority, init), qid, priority, c, live);
      assert Partitions(cs) == Partitions(init) + {c.partition};
    }
  }

  lemma {:induction false} PartitionCount(cs: seq<Candidate>)
    requires DistinctPartitions(cs)
    ensures |Partitions(cs)| == |cs|
  {
    if cs == [] {
      assert Partitions(cs) == {};
    } else {
      var init, c := cs[..|cs| - 1], cs[|cs| - 1];
      PartitionCount(init);
      assert c.partition !in Partitions(init);
      assert Partitions(cs) == Partitions(init) + {c.partition};
    }
  }

  lemma InsertStructure(q: Queue, q': Queue, qid: Uuid, st: QueryState, gs: seq<Group>)
    requires Structure(q) && Inserted(q, q', qid, st, gs) && InsertAccepted(q, qid, st, gs)
    requires DistinctPartitions(Candidates(gs))
    ensures Structure(q')
    ensures forall x :: Pending(All(q'), x)
                     == Pending(All(q), x) + (if x == qid then Partitions(Candidates(gs)) else {})
    ensures Pending(All(q), qid) == {}
  {
    hide PlaceAll, Candidates, Unique, Pending;
    var q1 := q.(queries := q.queries[qid := st]);
    var p := PlaceAll(q1, qid, st.priority, Candidates(gs));
    NotPending(q, qid);
    assert EntriesOk(All(q1), q1.queries.Keys);
    assert All(q1) == All(q);
    AllPlaced(q1, qid, st.priority, Candidates(gs), q1.queries.Keys);
    assert All(q') == All(p);
    forall e, x | e in multiset(q'.inactive) && x in e.queries
      ensures !HasCredit(q'.queries, x)
    {
      assert SubsetOf(p.inactive, q.inactive);
      assert e in multiset(q.inactive) && e in All(q);
      assert EntryOk(e, q.queries.Keys);
      assert x in q.queries;
      assert !HasCredit(q.queries, x);
    }
  }

  lemma NotPending(q: Queue, qid: Uuid)
    requires EntriesOk(All(q), q.queries.Keys) && qid !in q.queries
    ensures Pending(All(q), qid) == {}
  {
  }

  // -- activate -----------------------------------------------------------------------

  lemma {:induction false} SplitEntries(es: seq<Entry>, qid: Uuid)
    ensures multiset(With(es, qid)) + multiset(Without(es, qid)) == multiset(es)
  {
    if es != [] {
      var init, last := es[..|es| - 1], es[|es| - 1];
      SplitEntries(init, qid);
      assert es == init + [last];
      assert multiset(es) == multiset(init) + multiset{last};
    }
  }

  lemma {:induction false} WithoutMembers(es: seq<Entry>, qid: Uuid, e: Entry)
    requires e in Without(es, qid)
    ensures e in es && qid !in e.queries
  {
    if es != [] && e in Without(es[..|es| - 1], qid) {
      WithoutMembers(es[..|es| - 1], qid, e);
    }
  }

  lemma ActivateStructure(q: Queue, q': Queue, qid: Uuid, n: nat)
    requires Structure(q) && Activated(q, q', qid, n) && qid in q.queries
    ensures Structure(q') && All(q') == All(q)
  {
    hide With, Without, Unique;
    SplitEntries(q.inactive, qid);
    assert All(q') == All(q);
    assert q'.queries.Keys == q.queries.Keys;
    forall e, x | e in multiset(q'.inactive) && x in e.queries
      ensures !HasCredit(q'.queries, x)
    {
      WithoutMembers(q.inactive, qid, e);
      assert !HasCredit(q.queries, x);
    }
  }

  // -- next -----------------------------------------------------------------------------

  lemma SetAsideOk(queries: map<Uuid, QueryState>, e: Entry)
    requires EntryOk(e, queries.Keys)
    ensures var rest := WithoutCredit(queries, e.queries);
            if rest == [] then SetAside(queries, e) == []
            else
              && |SetAside(queries, e)| == 1
              && SetAside(queries, e)[0].partition == e.partition
              && SetAside(queries, e)[0].queries == rest
              && EntryOk(SetAside(queries, e)[0], queries.Keys)
  {
    var rest := WithoutCredit(queries, e.queries);
    forall x | x in rest
      ensures x in e.queries
    {
      CreditMembers(queries, e.queries, x);
    }
    CreditNoDuplicates(queries, e.queries);
    AllLive(queries, rest);
  }

  /** The queue after its last active entry was taken and split. */
  function Pop(q: Queue): Queue
    requires q.active != []
  {
    Queue(q.queries, q.active[..|q.active| - 1],
          q.inactive + SetAside(q.queries, q.active[|q.active| - 1]))
  }

  lemma PopAll(q: Queue)
    requires q.active != []
    ensures var e := q.active[|q.active| - 1];
            && e in All(q) && All(Pop(q)) == All(q) - multiset{e} + multiset(SetAside(q.queries, e))
  {
    hide SetAside;
    assert q.active == q.active[..|q.active| - 1] + [q.active[|q.active| - 1]];
  }

  ghost function Aside(q: Queue): Option<Entry>
    requires q.active != []
  {
    var aside := SetAside(q.queries, q.active[|q.active| - 1]);
    if aside == [] then None else Some(aside[0])
  }

  lemma ReplacedByMany(m: multiset<Entry>, e: Entry, es: seq<Entry>)
    requires Unique(m) && e in m && |es| <= 1 && (es != [] ==> es[0].partition == e.partition)
    ensures var m' := m - multiset{e} + multiset(es);
            Unique(m') && Changed(m, m', e.partition, if es == [] then None else Some(es[0]))
  {
    hide Unique, Changed;
    if es == [] {
      Dropped(m, e);
      assert m - multiset{e} + multiset(es) == m - multiset{e};
    } else {
      Replaced(m, e, es[0]);
      assert es == [es[0]];
    }
  }

  lemma PopChanged(q: Queue)
    requires Unique(All(q)) && EntriesOk(All(q), q.queries.Keys) && q.active != []
    ensures Unique(All(Pop(q)))
    ensures Changed(All(q), All(Pop(q)), q.active[|q.active| - 1].partition, Aside(q))
  {
    var e := q.active[|q.active| - 1];
    PopAll(q);
    assert EntryOk(e, q.queries.Keys);
    hide Unique, Changed, Pop, SetAside, EntriesOk, All, EntryOk;
    SetAsideOk(q.queries, e);
    ReplacedByMany(All(q), e, SetAside(q.queries, e));
  }

  lemma EntriesChanged(m: multiset<Entry>, m': multiset<Entry>, p: Uuid, e': Option<Entry>, live: set<Uuid>)
    requires EntriesOk(m, live) && Changed(m, m', p, e') && (e'.Some? ==> EntryOk(e'.value, live))
    ensures EntriesOk(m', live)
  {
  }

  /** Taking an entry keeps the structure of the queue. */
  lemma PopStructure(q: Queue)
    requires Structure(q) && q.active != []
    ensures Structure(Pop(q))
  {
    var e := q.active[|q.active| - 1];
    assert e in All(q);
    assert EntryOk(e, q.queries.Keys);
    PopChanged(q);
    PoppedWaiting(q);
    SetAsideOk(q.queries, e);
    hide Unique, Changed, EntriesOk, All, EntryOk, SetAside, Waiting;
    EntriesChanged(All(q), All(Pop(q)), e.partition, Aside(q), q.queries.Keys);
  }

  /** Taking an entry hands out its queries with credit and keeps the others pending. */
  lemma PopPending(q: Queue, x: Uuid)
    requires Structure(q) && q.active != []
    ensures var e := q.active[|q.active| - 1];
            Pending(All(Pop(q)), x)
            == Pending(All(q), x) - (if x in WithCredit(q.queries, e.queries) then {e.partition} else {})
  {
    var e := q.active[|q.active| - 1];
    assert e in All(q);
    assert EntryOk(e, q.queries.Keys);
    PopChanged(q);
    SetAsideOk(q.queries, e);
    hide Unique, Changed, EntriesOk, All, EntryOk, SetAside, Waiting, Pending, Pop;
    PendingChanged(All(q), All(Pop(q)), e.partition, Aside(q), x);
    PendingAt(All(q), e, x);
    CreditMembers(q.queries, e.queries, x);
  }

  lemma PoppedWaiting(q: Queue)
    requires Structure(q) && q.active != []
    ensures Waiting(Pop(q))
  {
    var e := q.active[|q.active| - 1];
    assert EntryOk(e, q.queries.Keys);
    SetAsideOk(q.queries, e);
    forall f, x | f in multiset(Pop(q).inactive) && x in f.queries
      ensures !HasCredit(q.queries, x)
    {
      if f !in multiset(q.inactive) {
        assert f in SetAside(q.queries, e);
        CreditMembers(q.queries, e.queries, x);
      }
    }
  }

  lemma ChargeStructure(q: Queue, qids: seq<Uuid>)
    requires Structure(q) && NoDuplicates(qids) && forall x :: x in qids ==> x in q.queries
    ensures Structure(q.(queries := Charge(q.queries, qids)))
  {
    hide Unique, Charge;
    var q' := q.(queries := Charge(q.queries, qids));
    Charged(q.queries, qids);
    assert All(q') == All(q);
    forall e, x | e in multiset(q'.inactive) && x in e.queries
      ensures !HasCredit(q'.queries, x)
    {
      assert e in All(q);
      assert EntryOk(e, q.queries.Keys);
      assert !HasCredit(q.queries, x);
    }
  }

  /** What a scheduled entry is: queries with credit, each pending there, each named once. */
  ghost predicate Schedulable(q: Queue, out: Entry) {
    && EntryOk(out, q.queries.Keys)
    && forall x :: x in out.queries ==> HasCredit(q.queries, x) && out.partition in Pending(All(q), x)
  }

  lemma ScheduledOk(q: Queue)
    requires Structure(q) && q.active != []
    requires WithCredit(q.queries, q.active[|q.active| - 1].queries) != []
    ensures Schedulable(q, Scheduled(q.queries, q.active[|q.active| - 1]))
  {
    var e := q.active[|q.active| - 1];
    var out := Scheduled(q.queries, e);
    assert e in All(q);
    assert EntryOk(e, q.queries.Keys);
    CreditNoDuplicates(q.queries, e.queries);
    forall x | x in out.queries
      ensures x in q.queries && HasCredit(q.queries, x) && out.partition in Pending(All(q), x)
    {
      CreditMembers(q.queries, e.queries, x);
      PendingAt(All(q), e, x);
    }
  }

  /** Next takes the partition it hands out off the pending work of exactly the queries it names. */
  ghost predicate NextOutcome(q: Queue, q': Queue, r: Option<Entry>) {
    match r
    case None =>
      q'.queries == q.queries && q'.active == [] && forall x :: Pending(All(q'), x) == Pending(All(q), x)
    case Some(out) =>
      && Schedulable(q, out)
      && q'.queries == Charge(q.queries, out.queries)
      && forall x :: Pending(All(q'), x)
                  == Pending(All(q), x) - (if x in out.queries then {out.partition} else {})
  }

  lemma {:induction false} NextStructure(q: Queue)
    requires Structure(q)
    ensures Structure(Next(q).0) && NextOutcome(q, Next(q).0, Next(q).1)
    decreases |q.active|
  {
    hide Unique, EntriesOk, Waiting, Pending, SetAside, WithCredit, Charge, EntryOk, Sorted;
    if q.active != [] {
      var p, e := Pop(q), q.active[|q.active| - 1];
      var out := Scheduled(q.queries, e);
      PopStructure(q);
      forall x
        ensures Pending(All(p), x) == Pending(All(q), x) - (if x in out.queries then {out.partition} else {})
      {
        PopPending(q, x);
      }
      if out.queries == [] {
        NextStructure(p);
        NextFurther(q, p, Next(p).0, Next(p).1);
      } else {
        ScheduledOk(q);
        NextNow(q, p, out);
      }
    }
  }

  lemma NextFurther(q: Queue, p: Queue, q': Queue, r: Option<Entry>)
    requires p.queries == q.queries && (forall x :: Pending(All(p), x) == Pending(All(q), x))
    requires NextOutcome(p, q', r)
    ensures NextOutcome(q, q', r)
  {
    hide Pending, Charge, EntryOk;
  }

  lemma NextNow(q: Queue, p: Queue, out: Entry)
    requires Structure(p) && Schedulable(q, out) && p.queries == q.queries
    requires forall x :: Pending(All(p), x) == Pending(All(q), x) - (if x in out.queries then {out.partition} else {})
    ensures var q' := p.(queries := Charge(q.queries, out.queries));
            Structure(q') && NextOutcome(q, q', Some(out))
  {
    hide Unique, EntriesOk, Waiting, Pending, Charge, Sorted;
    ChargeStructure(p, out.queries);
    assert All(p.(queries := Charge(q.queries, out.queries))) == All(p);
  }

  ghost predicate Creditable(queries: map<Uuid, QueryState>, e: Entry) {
    exists x :: x in e.queries && HasCredit(queries, x)
  }

  /** No entry with credit has a higher stored priority than e. */
  ghost predicate Foremost(q: Queue, e: Entry) {
    && e in multiset(q.active) && Creditable(q.queries, e)
    && forall f :: f in All(q) && Creditable(q.queries, f) ==> f.priority <= e.priority
  }

  lemma CreditableScheduled(queries: map<Uuid, QueryState>, e: Entry)
    ensures Creditable(queries, e) <==> Scheduled(queries, e).queries != []
  {
    var qids := WithCredit(queries, e.queries);
    if qids != [] {
      assert qids[0] in qids;
      CreditMembers(queries, e.queries, qids[0]);
    }
    if Creditable(queries, e) {
      var x :| x in e.queries && HasCredit(queries, x);
      CreditMembers(queries, e.queries, x);
    }
  }

  /**
   * No lost wake-up: next finds nothing only if no entry, active or inactive, has a query
   * with credit; otherwise it schedules an entry of the highest stored priority.
   */
  lemma {:induction false} NextChoice(q: Queue)
    requires Structure(q)
    ensures Next(q).1.None? <==> forall e :: e in All(q) ==> !Creditable(q.queries, e)
    ensures Next(q).1.Some? ==> exists e :: Foremost(q, e) && Next(q).1.value == Scheduled(q.queries, e)
    decreases |q.active|
  {
    hide Unique, EntriesOk, SetAside, WithCredit, Charge, Foremost, Structure, Creditable, Waiting;
    if q.active == [] {
      NothingCreditable(q);
    } else {
      var e := q.active[|q.active| - 1];
      CreditableScheduled(q.queries, e);
      if Creditable(q.queries, e) {
        LastIsForemost(q);
      } else {
        PopStructure(q);
        NextChoice(Pop(q));
        PopCreditable(q);
        assert Next(q) == Next(Pop(q));
        if Next(Pop(q)).1.Some? {
          var f :| Foremost(Pop(q), f) && Next(Pop(q)).1.value == Scheduled(q.queries, f);
          PopForemost(q, f);
        }
      }
    }
  }

  lemma LastIsForemost(q: Queue)
    requires Structure(q) && q.active != [] && Creditable(q.queries, q.active[|q.active| - 1])
    ensures Foremost(q, q.active[|q.active| - 1])
  {
    hide Unique, EntriesOk;
    var e := q.active[|q.active| - 1];
    forall f | f in All(q) && Creditable(q.queries, f)
      ensures f.priority <= e.priority
    {
      if f in multiset(q.active) {
        var i :| 0 <= i < |q.active| && q.active[i] == f;
      }
    }
  }

  lemma NothingCreditable(q: Queue)
    requires Structure(q) && q.active == []
    ensures forall e :: e in All(q) ==> !Creditable(q.queries, e)
  {
    forall e | e in All(q)
      ensures !Creditable(q.queries, e)
    {
      assert e in multiset(q.inactive);
    }
  }

  lemma PopForemost(q: Queue, f: Entry)
    requires Structure(q) && q.active != [] && !Creditable(q.queries, q.active[|q.active| - 1])
    requires Foremost(Pop(q), f)
    ensures Foremost(q, f)
  {
    hide Structure, Creditable, All, SetAside, WithCredit;
    PopCreditable(q);
  }

  /** Setting an entry without credit aside neither adds nor takes entries with credit. */
  lemma PopCreditable(q: Queue)
    requires Structure(q) && q.active != [] && !Creditable(q.queries, q.active[|q.active| - 1])
    ensures forall f :: Creditable(q.queries, f) ==> (f in All(Pop(q)) <==> f in All(q))
    ensures forall f :: f in multiset(Pop(q).active) ==> f in multiset(q.active)
  {
    hide Structure, SetAside, Creditable, All;
    var e := q.active[|q.active| - 1];
    PopAll(q);
    AsideWithoutCredit(q);
    assert q.active == q.active[..|q.active| - 1] + [e];
  }

  lemma AsideWithoutCredit(q: Queue)
    requires Structure(q) && q.active != []
    ensures forall f :: f in multiset(SetAside(q.queries, q.active[|q.active| - 1])) ==> !Creditable(q.queries, f)
  {
    PoppedWaiting(q);
    hide Structure, SetAside, HasCredit;
    forall f | f in multiset(SetAside(q.queries, q.active[|q.active| - 1]))
      ensures !Creditable(q.queries, f)
    {
      assert f in multiset(Pop(q).inactive);
    }
  }

  // -- completion and removal -------------------------------------------------------------

  lemma ReachablePending(q: Queue, qid: Uuid)
    ensures Reachable(q, qid) <==> Pending(All(q), qid) != {}
  {
    if Reachable(q, qid) {
      var e :| e in q.active + q.inactive && qid in e.queries;
      assert e in All(q);
      assert e.partition in Pending(All(q), qid);
    }
    if Pending(All(q), qid) != {} {
      var p :| p in Pending(All(q), qid);
      var e :| e in All(q) && qid in e.queries && e.partition == p;
      assert e in q.active + q.inactive;
    }
  }

  /** A completion that keeps the query, or erases one that no entry refers to. */
  lemma CompleteStructure(q: Queue, qid: Uuid)
    requires Structure(q) && qid in q.queries
    requires q.queries[qid].completed + 1 == q.queries[qid].candidates ==> Pending(All(q), qid) == {}
    ensures Structure(Complete(q, qid).0) && All(Complete(q, qid).0) == All(q)
  {
    hide Unique;
    var q' := Complete(q, qid).0;
    assert All(q') == All(q);
    forall e | e in All(q)
      ensures EntryOk(e, q'.queries.Keys)
    {
      assert EntryOk(e, q.queries.Keys);
      if qid in e.queries {
        assert e.partition in Pending(All(q), qid);
      }
    }
    forall e, x | e in multiset(q'.inactive) && x in e.queries
      ensures !HasCredit(q'.queries, x)
    {
      assert !HasCredit(q.queries, x);
    }
  }

  lemma {:induction false} StripSorted(es: seq<Entry>, qid: Uuid)
    requires Sorted(es)
    ensures Sorted(Strip(es, qid))
    ensures forall f :: f in Strip(es, qid) ==> es != [] && f.priority <= es[|es| - 1].priority
  {
    if es != [] {
      StripSorted(es[..|es| - 1], qid);
    }
  }

  lemma {:induction false} StripUnique(es: seq<Entry>, qid: Uuid)
    requires Unique(multiset(es)) && forall e :: e in es ==> e.queries != []
    ensures Unique(multiset(Strip(es, qid)))
  {
    if es != [] {
      var init, last := es[..|es| - 1], es[|es| - 1];
      assert es == init + [last];
      assert multiset(es) == multiset(init) + multiset{last};
      InitUnique(multiset(init), last);
      StripUnique(init, qid);
      forall f | f in multiset(Strip(init, qid))
        ensures f.partition != last.partition
      {
        StripMembers(init, qid, f);
      }
      var e' := StripEntry(last, qid);
      if qid !in last.queries {
        RemoveFirstAbsent(last.queries, qid);
        assert e' == last;
      }
      Added(multiset(Strip(init, qid)), e');
    }
  }

  lemma InitUnique(m: multiset<Entry>, e: Entry)
    requires Unique(m + multiset{e})
    ensures Unique(m) && forall f :: f in m ==> f.partition != e.partition
  {
    forall f | f in m
      ensures f.partition != e.partition && m[f] == 1
    {
      assert f in m + multiset{e};
      assert (m + multiset{e})[f] == 1;
    }
    forall f, g | f in m && g in m && f.partition == g.partition
      ensures f == g
    {
      assert f in m + multiset{e} && g in m + multiset{e};
    }
  }

  lemma {:induction false} StripAppend(es: seq<Entry>, fs: seq<Entry>, qid: Uuid)
    ensures Strip(es + fs, qid) == Strip(es, qid) + Strip(fs, qid)
  {
    if fs == [] {
      assert es + fs == es;
    } else {
      StripAppend(es, fs[..|fs| - 1], qid);
      assert (es + fs)[..|es + fs| - 1] == es + fs[..|fs| - 1];
    }
  }

  lemma RemovedAll(q: Queue, qid: Uuid)
    requires qid in q.queries
    ensures All(Remove(q, qid)) == multiset(Strip(q.active + q.inactive, qid))
    ensures All(q) == multiset(q.active + q.inactive)
  {
    StripAppend(q.active, q.inactive, qid);
  }

  lemma StripKeeps(e: Entry, qid: Uuid, live: set<Uuid>)
    requires EntryOk(e, live) && StripEntry(e, qid).queries != []
    ensures EntryOk(StripEntry(e, qid), live - {qid})
  {
    RemoveFirstMembers(e.queries, qid);
  }

  lemma RemoveStructure(q: Queue, qid: Uuid)
    requires Structure(q) && qid in q.queries
    ensures Structure(Remove(q, qid))
  {
    var q', es := Remove(q, qid), q.active + q.inactive;
    RemovedAll(q, qid);
    StripSorted(q.active, qid);
    assert forall e :: e in es ==> EntryOk(e, q.queries.Keys) by {
      assert forall e :: e in es ==> e in All(q);
    }
    StripUnique(es, qid);
    RemovedWaiting(q, qid);
    hide Unique, Strip, Waiting, Sorted, All, RemoveFirst;
    forall f | f in All(q')
      ensures EntryOk(f, q'.queries.Keys)
    {
      StripMembers(es, qid, f);
      var e :| e in es && f == StripEntry(e, qid);
      StripKeeps(e, qid, q.queries.Keys);
      assert q'.queries.Keys == q.queries.Keys - {qid};
    }
  }

  lemma RemovedWaiting(q: Queue, qid: Uuid)
    requires Structure(q) && qid in q.queries
    ensures Waiting(Remove(q, qid))
  {
    hide Unique, Strip, Sorted, RemoveFirst;
    var q' := Remove(q, qid);
    assert forall e :: e in q.inactive ==> e in All(q);
    forall f, x | f in multiset(q'.inactive) && x in f.queries
      ensures !HasCredit(q'.queries, x)
    {
      StripMembers(q.inactive, qid, f);
      var e :| e in q.inactive && f == StripEntry(e, qid);
      assert EntryOk(e, q.queries.Keys);
      RemoveFirstMembers(e.queries, qid);
      assert !HasCredit(q.queries, x);
    }
  }

  lemma StripPending(es: seq<Entry>, qid: Uuid, x: Uuid, p: Uuid)
    requires forall e :: e in es ==> e.queries != [] && NoDuplicates(e.queries)
    ensures p in Pending(multiset(Strip(es, qid)), x) <==> x != qid && p in Pending(multiset(es), x)
  {
    hide Strip, RemoveFirst;
    if p in Pending(multiset(Strip(es, qid)), x) {
      var f :| f in Strip(es, qid) && x in f.queries && f.partition == p;
      StripMembers(es, qid, f);
      var e :| e in es && f == StripEntry(e, qid);
      RemoveFirstMembers(e.queries, qid);
    }
    if x != qid && p in Pending(multiset(es), x) {
      var e :| e in es && x in e.queries && e.partition == p;
      RemoveFirstMembers(e.queries, qid);
      StripMembers(es, qid, StripEntry(e, qid));
    }
  }

  /** Removing a query takes its work away and nobody else's. */
  lemma RemovePending(q: Queue, qid: Uuid, x: Uuid)
    requires Structure(q) && qid in q.queries
    ensures Pending(All(Remove(q, qid)), x) == if x == qid then {} else Pending(All(q), x)
  {
    var es := q.active + q.inactive;
    RemovedAll(q, qid);
    assert forall e :: e in es ==> EntryOk(e, q.queries.Keys) by {
      assert forall e :: e in es ==> e in All(q);
    }
    hide Unique, Strip, Waiting, Sorted, All, Pending, EntriesOk;
    forall p
      ensures p in Pending(All(Remove(q, qid)), x) <==> x != qid && p in Pending(All(q), x)
    {
      StripPending(es, qid, x, p);
    }
  }

  // -- erasing -------------------------------------------------------------------------------

  lemma EraseChanged(m: multiset<Entry>, e: Entry, live: set<Uuid>)
    requires Unique(m) && EntriesOk(m, live) && e in m
    ensures var m' := m - multiset{e} + multiset{e.(erased := true)};
            && Unique(m') && EntriesOk(m', live)
            && forall x :: Pending(m', x) == Pending(m, x)
  {
    var e' := e.(erased := true);
    var m' := m - multiset{e} + multiset{e'};
    assert EntryOk(e, live);
    Replaced(m, e, e');
    forall x
      ensures Pending(m', x) == Pending(m, x)
    {
      PendingChanged(m, m', e.partition, Some(e'), x);
      PendingAt(m, e, x);
    }
  }

  lemma EraseWaiting(q: Queue, pid: Uuid)
    requires Waiting(q)
    ensures Waiting(MarkErased(q, pid).0)
  {
    var q' := MarkErased(q, pid).0;
    forall f, x | f in multiset(q'.inactive) && x in f.queries
      ensures !HasCredit(q'.queries, x)
    {
      var i :| 0 <= i < |q'.inactive| && q'.inactive[i] == f;
      assert q.inactive[i] in multiset(q.inactive) && q.inactive[i].queries == f.queries;
    }
  }

  lemma EraseActive(q: Queue, i: nat, e: Entry)
    requires i < |q.active|
    ensures q.active[i] in All(q)
    ensures All(q.(active := q.active[i := e])) == All(q) - multiset{q.active[i]} + multiset{e}
  {
    UpdateMultiset(q.active, i, e);
    assert q.active[i] in multiset(q.active);
  }

  lemma EraseInactive(q: Queue, i: nat, e: Entry)
    requires i < |q.inactive|
    ensures q.inactive[i] in All(q)
    ensures All(q.(inactive := q.inactive[i := e])) == All(q) - multiset{q.inactive[i]} + multiset{e}
  {
    UpdateMultiset(q.inactive, i, e);
    assert q.inactive[i] in multiset(q.inactive);
  }

  lemma EraseAll(q: Queue, pid: Uuid) returns (e: Entry)
    requires MarkErased(q, pid).1
    ensures e in All(q) && e.partition == pid
    ensures All(MarkErased(q, pid).0) == All(q) - multiset{e} + multiset{e.(erased := true)}
  {
    hide All, Find;
    var i, j := Find(q.active, pid), Find(q.inactive, pid);
    if i < |q.active| {
      e := q.active[i];
      EraseActive(q, i, e.(erased := true));
    } else {
      e := q.inactive[j];
      EraseInactive(q, j, e.(erased := true));
    }
  }

  /** Erasing a partition is a mark on its entry: its queries still have to visit it. */
  lemma EraseStructure(q: Queue, pid: Uuid)
    requires Structure(q)
    ensures Structure(MarkErased(q, pid).0)
    ensures forall x :: Pending(All(MarkErased(q, pid).0), x) == Pending(All(q), x)
    ensures MarkErased(q, pid).1 <==> exists e :: e in All(q) && e.partition == pid
  {
    var q' := MarkErased(q, pid).0;
    EraseWaiting(q, pid);
    assert Sorted(q'.active);
    if MarkErased(q, pid).1 {
      var e := EraseAll(q, pid);
      hide Unique, EntriesOk, Waiting, Sorted, All, Pending;
      EraseChanged(All(q), e, q.queries.Keys);
    } else {
      FindNone(q.active, pid);
      FindNone(q.inactive, pid);
    }
  }
}
