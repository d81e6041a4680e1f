// The query queue as it is updated in place.
module QueryQueues {
  import opened Options
  import opened QueueCode

  datatype Error = NoCandidates | SizeMismatch | DuplicateQuery | UnknownQuery

  lemma InsertedAt(r: seq<Entry>, k: nat, e: Entry)
    requires Sorted(r) && k <= |r|
    requires forall j :: 0 <= j < k ==> r[j].priority <= e.priority
    requires k < |r| ==> e.priority <= r[k].priority
    ensures SortOf(r[..k] + [e] + r[k..], r + [e])
  {
    assert r == r[..k] + r[k..];
  }

  method InsertByPriority(r: seq<Entry>, e: Entry) returns (r': seq<Entry>)
    requires Sorted(r)
    ensures SortOf(r', r + [e])
  {
    hide SortOf;
    var k := 0;
    while k < |r| && r[k].priority <= e.priority
      invariant 0 <= k <= |r|
      invariant forall j :: 0 <= j < k ==> r[j].priority <= e.priority
    {
      k := k + 1;
    }
    InsertedAt(r, k, e);
    r' := r[..k] + [e] + r[k..];
  }

  lemma SortedFurther(es: seq<Entry>, i: nat, r: seq<Entry>, r': seq<Entry>)
    requires i < |es| && SortOf(r, es[..i]) && SortOf(r', r + [es[i]])
    ensures SortOf(r', es[..i + 1])
  {
    assert es[..i + 1] == es[..i] + [es[i]];
  }

  /** Insertion sort by priority; callers may rely on a sorted permutation only. */
  method Sort(es: seq<Entry>) returns (r: seq<Entry>)
    ensures SortOf(r, es)
  {
    r := [];
    for i := 0 to |es|
      invariant SortOf(r, es[..i])
    {
      var r' := InsertByPriority(r, es[i]);
      SortedFurther(es, i, r, r');
      r := r';
    }
    assert es[..|es|] == es;
  }

  method FindEntry(es: seq<Entry>, pid: Uuid) returns (i: nat)
    ensures i == Find(es, pid)
  {
    i := 0;
    while i < |es| && es[i].partition != pid
      invariant 0 <= i <= |es| && Find(es, pid) == i + Find(es[i..], pid)
    {
      i := i + 1;
    }
  }

  method AnyEntryNames(es: seq<Entry>, qid: Uuid) returns (r: bool)
    ensures r <==> exists e :: e in es && qid in e.queries
  {
    var i := 0;
    while i < |es| && qid !in es[i].queries
      invariant 0 <= i <= |es| && forall j :: 0 <= j < i ==> qid !in es[j].queries
    {
      i := i + 1;
    }
    r := i < |es|;
  }

  /** Splits queries into those with and those without credit. */
  method SplitQueries(queries: map<Uuid, QueryState>, qids: seq<Uuid>)
    returns (active: seq<Uuid>, inactive: seq<Uuid>)
    ensures active == WithCredit(queries, qids) && inactive == WithoutCredit(queries, qids)
  {
    active, inactive := [], [];
    for i := 0 to |qids|
      invariant active == WithCredit(queries, qids[..i]) && inactive == WithoutCredit(queries, qids[..i])
    {
      assert qids[..i + 1][..i] == qids[..i];
      if HasCredit(queries, qids[i]) {
        active := active + [qids[i]];
      } else {
        inactive := inactive + [qids[i]];
      }
    }
    assert qids[..|qids|] == qids;
  }

  /** Drops unknown queries and adds up the priorities of the others. */
  method WeighQueries(queries: map<Uuid, QueryState>, qids: seq<Uuid>) returns (live: seq<Uuid>, priority: nat)
    ensures live == Live(queries, qids) && priority == TotalPriority(queries, qids)
  {
    live, priority := [], 0;
    for i := 0 to |qids|
      invariant live == Live(queries, qids[..i]) && priority == TotalPriority(queries, qids[..i])
    {
      assert qids[..i + 1][..i] == qids[..i];
      if qids[i] in queries {
        live, priority := live + [qids[i]], priority + queries[qids[i]].priority;
      }
    }
    assert qids[..|qids|] == qids;
  }

  lemma StripStep(es: seq<Entry>, k: nat, qid: Uuid)
    requires k < |es|
    ensures var e := es[k];
            var e' := e.(queries := RemoveFirst(e.queries, qid));
            Strip(es[..k + 1], qid)
            == Strip(es[..k], qid) + (if qid !in e.queries then [e] else if e'.queries == [] then [] else [e'])
  {
    assert es[..k + 1][..k] == es[..k];
  }

  /** Takes a query out of every entry, dropping entries that become empty. */
  method StripEntries(es: seq<Entry>, qid: Uuid) returns (queue: seq<Entry>)
    ensures queue == Strip(es, qid)
  {
    hide Strip, RemoveFirst;
    queue := es;
    var i := 0;
    ghost var k := 0;
    StripNone(es, qid);
    while i < |queue|
      invariant 0 <= k <= |es| && i == |Strip(es[..k], qid)|
      invariant queue == Strip(es[..k], qid) + es[k..]
      decreases |es| - k
    {
      ghost var done := Strip(es[..k], qid);
      StripStep(es, k, qid);
      var e := queue[i];
      assert e == es[k] && es[k..] == [e] + es[k + 1..];
      if qid !in e.queries {
        i := i + 1;
      } else {
        var rest := RemoveFirst(e.queries, qid);
        if rest == [] {
          queue := queue[..i] + queue[i + 1..];
        } else {
          queue := queue[i := e.(queries := rest)];
          i := i + 1;
        }
      }
      k := k + 1;
    }
    assert es[..k] == es;
  }

  lemma StripNone(es: seq<Entry>, qid: Uuid)
    ensures Strip(es[..0], qid) == []
  {
  }

  class QueryQueue {
    var queries: map<Uuid, QueryState>
    var partitions: seq<Entry>
    var inactivePartitions: seq<Entry>

    ghost function State(): Queue
      reads this
    {
      Queue(queries, partitions, inactivePartitions)
    }

    constructor ()
      ensures State() == Queue(map[], [], [])
    {
      queries, partitions, inactivePartitions := map[], [], [];
    }

    method IsReachable(qid: Uuid) returns (r: bool)
      ensures r <==> Reachable(State(), qid)
    {
      var a := AnyEntryNames(partitions, qid);
      var b := AnyEntryNames(inactivePartitions, qid);
      r := a || b;
    }

    method PlaceCandidate(qid: Uuid, priority: nat, schema: Schema, pid: Uuid)
      modifies this
      ensures State() == Place(old(State()), qid, priority, Candidate(pid, schema))
    {
      var i := FindEntry(partitions, pid);
      if i != |partitions| {
        partitions := partitions[i := Join(partitions[i], qid, priority)];
        return;
      }
      var j := FindEntry(inactivePartitions, pid);
      if j != |inactivePartitions| {
        partitions := partitions + [Join(inactivePartitions[j], qid, priority)];
        inactivePartitions := inactivePartitions[..j] + inactivePartitions[j + 1..];
        return;
      }
      partitions := partitions + [Entry(pid, schema, priority, [qid], false)];
    }

    method PlaceGroup(qid: Uuid, priority: nat, g: Group)
      modifies this
      ensures State() == PlaceAll(old(State()), qid, priority, GroupCandidates(g))
    {
      hide Place;
      ghost var start, cs := State(), GroupCandidates(g);
      for j := 0 to |g.partitions|
        invariant State() == PlaceAll(start, qid, priority, cs[..j])
      {
        assert cs[..j + 1][..j] == cs[..j];
        PlaceCandidate(qid, priority, g.schema, g.partitions[j]);
      }
      assert cs[..|cs|] == cs;
    }

    method Insert(qid: Uuid, st: QueryState, groups: seq<Group>) returns (err: Option<Error>)
      modifies this
      ensures Inserted(old(State()), State(), qid, st, groups)
      ensures err.None? <==> InsertAccepted(old(State()), qid, st, groups)
    {
      hide PlaceAll, GroupCandidates;
      if groups == [] {
        return Some(NoCandidates);
      }
      if st.candidates != |Candidates(groups)| {
        return Some(SizeMismatch);
      }
      if qid in queries {
        return Some(DuplicateQuery);
      }
      queries := queries[qid := st];
      ghost var start := State();
      PlaceNone(start, qid, st.priority);
      for i := 0 to |groups|
        invariant State() == PlaceAll(start, qid, st.priority, Candidates(groups[..i]))
      {
        assert groups[..i + 1][..i] == groups[..i];
        PlaceAppend(start, qid, st.priority, Candidates(groups[..i]), GroupCandidates(groups[i]));
        PlaceGroup(qid, st.priority, groups[i]);
      }
      assert groups[..|groups|] == groups;
      partitions := Sort(partitions);
      err := None;
    }

    lemma PlaceNone(q: Queue, qid: Uuid, priority: nat)
      ensures PlaceAll(q, qid, priority, []) == q
    {
    }

    lemma {:induction false} PlaceAppend(q: Queue, qid: Uuid, priority: nat, cs: seq<Candidate>, ds: seq<Candidate>)
      ensures PlaceAll(q, qid, priority, cs + ds) == PlaceAll(PlaceAll(q, qid, priority, cs), qid, priority, ds)
    {
      hide Place;
      if ds == [] {
        assert cs + ds == cs;
      } else {
        PlaceAppend(q, qid, priority, cs, ds[..|ds| - 1]);
        assert (cs + ds)[..|cs + ds| - 1] == cs + ds[..|ds| - 1];
      }
    }

    method Activate(qid: Uuid, n: nat) returns (err: Option<Error>)
      modifies this
      ensures Activated(old(State()), State(), qid, n)
      ensures err.None? <==> qid in old(queries)
    {
      if qid !in queries {
        return Some(UnknownQuery);
      }
      queries := queries[qid := Grant(queries[qid], n)];
      var newInactive := [];
      ghost var was := partitions;
      for i := 0 to |inactivePartitions|
        modifies this`partitions
        invariant partitions == was + With(inactivePartitions[..i], qid)
        invariant newInactive == Without(inactivePartitions[..i], qid)
      {
        assert inactivePartitions[..i + 1][..i] == inactivePartitions[..i];
        if qid in inactivePartitions[i].queries {
          partitions := partitions + [inactivePartitions[i]];
        } else {
          newInactive := newInactive + [inactivePartitions[i]];
        }
      }
      assert inactivePartitions[..|inactivePartitions|] == inactivePartitions;
      inactivePartitions := newInactive;
      partitions := Sort(partitions);
      err := None;
    }

    method RemoveQuery(qid: Uuid) returns (err: Option<Error>)
      modifies this
      ensures State() == Remove(old(State()), qid)
      ensures err.None? <==> qid in old(queries)
    {
      if qid !in queries {
        return Some(UnknownQuery);
      }
      queries := queries - {qid};
      partitions := StripEntries(partitions, qid);
      inactivePartitions := StripEntries(inactivePartitions, qid);
      err := None;
    }

    method MarkPartitionErased(pid: Uuid) returns (r: bool)
      modifies this
      ensures (State(), r) == MarkErased(old(State()), pid)
    {
      var i := FindEntry(partitions, pid);
      if i != |partitions| {
        partitions := partitions[i := partitions[i].(erased := true)];
        return true;
      }
      var j := FindEntry(inactivePartitions, pid);
      if j != |inactivePartitions| {
        inactivePartitions := inactivePartitions[j := inactivePartitions[j].(erased := true)];
        return true;
      }
      r := false;
    }

    method ChargeQueries(qids: seq<Uuid>)
      modifies this`queries
      ensures queries == Charge(old(queries), qids)
    {
      for i := 0 to |qids|
        invariant queries == Charge(old(queries), qids[..i])
      {
        assert qids[..i + 1][..i] == qids[..i];
        var qid := qids[i];
        if qid in queries {
          queries := queries[qid := queries[qid].(scheduled := queries[qid].scheduled + 1)];
        }
      }
      assert qids[..|qids|] == qids;
    }

    method TakeNext() returns (r: Option<Entry>)
      modifies this
      ensures (State(), r) == Next(old(State()))
    {
      hide WithCredit, WithoutCredit, Live, TotalPriority, Charge;
      while partitions != []
        invariant Next(State()) == Next(old(State()))
        decreases |partitions|
      {
        var result := partitions[|partitions| - 1];
        partitions := partitions[..|partitions| - 1];
        var active, inactive := SplitQueries(queries, result.queries);
        if inactive != [] {
          var live, priority := WeighQueries(queries, inactive);
          inactivePartitions := inactivePartitions
            + [Entry(result.partition, result.schema, priority, live, result.erased)];
        } else {
          assert inactivePartitions + [] == inactivePartitions;
        }
        if active != [] {
          ChargeQueries(active);
          return Some(Entry(result.partition, result.schema, 0, active, result.erased));
        }
      }
      r := None;
    }

    method HandleCompletion(qid: Uuid) returns (r: Option<Client>)
      modifies this
      ensures (State(), r) == Complete(old(State()), qid)
    {
      if qid !in queries {
        return None;
      }
      r := None;
      queries := queries[qid := queries[qid].(completed := queries[qid].completed + 1)];
      var st := queries[qid];
      if st.completed == st.requested {
        r := Some(st.client);
      }
      if st.completed == st.candidates {
        queries := queries - {qid};
        assert queries == old(queries) - {qid};
      }
    }
  }
}
