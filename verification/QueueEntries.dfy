// Facts about lists of queue entries and the queries in them.
module QueueEntries {
  import opened Options
  import opened QueueCode

  function All(q: Queue): multiset<Entry> {
    multiset(q.active) + multiset(q.inactive)
  }

  /** Each partition has at most one entry. */
  ghost predicate Unique(m: multiset<Entry>) {
    && (forall e, f :: e in m && f in m && e.partition == f.partition ==> e == f)
    && (forall e :: e in m ==> m[e] == 1)
  }

  ghost predicate NoDuplicates(qids: seq<Uuid>) {
    forall i, j :: 0 <= i < j < |qids| ==> qids[i] != qids[j]
  }

  /** An entry names at least one query, each query once, and only live ones. */
  ghost predicate EntryOk(e: Entry, live: set<Uuid>) {
    e.queries != [] && NoDuplicates(e.queries) && forall x :: x in e.queries ==> x in live
  }

  ghost predicate EntriesOk(m: multiset<Entry>, live: set<Uuid>) {
    forall e :: e in m ==> EntryOk(e, live)
  }

  /** The partitions that a query still has to visit. */
  ghost function Pending(m: multiset<Entry>, qid: Uuid): set<Uuid> {
    set e | e in m && qid in e.queries :: e.partition
  }

  // -- replacing, adding and dropping an entry ------------------------------------------

  /** The entry of partition p in m', if any, is e'; all other entries are those of m. */
  ghost predicate Changed(m: multiset<Entry>, m': multiset<Entry>, p: Uuid, e': Option<Entry>) {
    && (e'.Some? ==> e'.value.partition == p)
    && forall f :: f in m' <==> (f in m && f.partition != p) || e' == Some(f)
  }

  lemma Replaced(m: multiset<Entry>, e: Entry, e': Entry)
    requires Unique(m) && e in m && e'.partition == e.partition
    ensures var m' := m - multiset{e} + multiset{e'};
            Unique(m') && Changed(m, m', e.partition, Some(e'))
  {
  }

  lemma Dropped(m: multiset<Entry>, e: Entry)
    requires Unique(m) && e in m
    ensures var m' := m - multiset{e};
            Unique(m') && Changed(m, m', e.partition, None)
  {
  }

  lemma Added(m: multiset<Entry>, e: Entry)
    requires Unique(m) && forall f :: f in m ==> f.partition != e.partition
    ensures var m' := m + multiset{e};
            Unique(m') && Changed(m, m', e.partition, Some(e))
  {
  }

  /** A changed entry changes what is pending at its partition only. */
  lemma PendingChanged(m: multiset<Entry>, m': multiset<Entry>, p: Uuid, e': Option<Entry>, qid: Uuid)
    requires Changed(m, m', p, e')
    ensures Pending(m', qid)
            == Pending(m, qid) - {p} + (if e'.Some? && qid in e'.value.queries then {p} else {})
  {
    forall x | x in Pending(m, qid) && x != p
      ensures x in Pending(m', qid)
    {
      var f :| f in m && qid in f.queries && f.partition == x;
      assert f in m';
    }
    if e'.Some? && qid in e'.value.queries {
      assert e'.value in m';
    }
  }

  lemma PendingAt(m: multiset<Entry>, e: Entry, qid: Uuid)
    requires Unique(m) && e in m
    ensures e.partition in Pending(m, qid) <==> qid in e.queries
  {
  }

  // -- finding entries ---------------------------------------------------------------------

  lemma FindNone(es: seq<Entry>, pid: Uuid)
    requires Find(es, pid) == |es|
    ensures forall e :: e in multiset(es) ==> e.partition != pid
  {
  }

  lemma UpdateMultiset(es: seq<Entry>, i: nat, e: Entry)
    requires i < |es|
    ensures multiset(es[i := e]) == multiset(es) - multiset{es[i]} + multiset{e}
  {
  }

  lemma RemoveMultiset(es: seq<Entry>, i: nat)
    requires i < |es|
    ensures multiset(es[..i] + es[i + 1..]) == multiset(es) - multiset{es[i]}
  {
    assert es == es[..i] + [es[i]] + es[i + 1..];
  }

  // -- splitting the queries of an entry ----------------------------------------------------

  lemma {:induction false} CreditMembers(queries: map<Uuid, QueryState>, qids: seq<Uuid>, x: Uuid)
    ensures x in WithCredit(queries, qids) <==> x in qids && HasCredit(queries, x)
    ensures x in WithoutCredit(queries, qids) <==> x in qids && !HasCredit(queries, x)
  {
    if qids != [] {
      CreditMembers(queries, qids[..|qids| - 1], x);
      assert qids == qids[..|qids| - 1] + [qids[|qids| - 1]];
    }
  }

  lemma {:induction false} CreditNoDuplicates(queries: map<Uuid, QueryState>, qids: seq<Uuid>)
    requires NoDuplicates(qids)
    ensures NoDuplicates(WithCredit(queries, qids))
    ensures NoDuplicates(WithoutCredit(queries, qids))
  {
    if qids != [] {
      var init, last := qids[..|qids| - 1], qids[|qids| - 1];
      CreditNoDuplicates(queries, init);
      CreditMembers(queries, init, last);
    }
  }

  lemma {:induction false} AllLive(queries: map<Uuid, QueryState>, qids: seq<Uuid>)
    requires forall x :: x in qids ==> x in queries
    ensures Live(queries, qids) == qids
  {
    if qids != [] {
      AllLive(queries, qids[..|qids| - 1]);
    }
  }

  function ChargedState(queries: map<Uuid, QueryState>, qids: seq<Uuid>, x: Uuid): QueryState
    requires x in queries
  {
    if x in qids then queries[x].(scheduled := queries[x].scheduled + 1) else queries[x]
  }

  /** Charging hands each named query one unit, and leaves all else alone. */
  lemma {:induction false} Charged(queries: map<Uuid, QueryState>, qids: seq<Uuid>)
    requires NoDuplicates(qids) && forall x :: x in qids ==> x in queries
    ensures Charge(queries, qids).Keys == queries.Keys
    ensures forall x :: x in queries ==> Charge(queries, qids)[x] == ChargedState(queries, qids, x)
  {
    if qids != [] {
      var init, last := qids[..|qids| - 1], qids[|qids| - 1];
      Charged(queries, init);
      assert qids == init + [last];
      assert last !in init;
    }
  }

  // -- taking a query out ----------------------------------------------------------------

  lemma {:induction false} RemoveFirstMembers(qids: seq<Uuid>, qid: Uuid)
    requires NoDuplicates(qids)
    ensures NoDuplicates(RemoveFirst(qids, qid))
    ensures forall x :: x in RemoveFirst(qids, qid) <==> x in qids && x != qid
  {
    if qids != [] {
      var rest := qids[1..];
      RemoveFirstMembers(rest, qid);
      assert qids == [qids[0]] + rest;
      assert qids[0] !in rest;
    }
  }

  function StripEntry(e: Entry, qid: Uuid): Entry {
    e.(queries := RemoveFirst(e.queries, qid))
  }

  lemma {:induction false} RemoveFirstAbsent(qids: seq<Uuid>, qid: Uuid)
    requires qid !in qids
    ensures RemoveFirst(qids, qid) == qids
  {
    if qids != [] {
      RemoveFirstAbsent(qids[1..], qid);
    }
  }

  lemma {:induction false} StripMembers(es: seq<Entry>, qid: Uuid, f: Entry)
    requires forall e :: e in es ==> e.queries != []
    ensures f in Strip(es, qid) <==> f.queries != [] && exists e :: e in es && f == StripEntry(e, qid)
  {
    if es != [] {
      var init, last := es[..|es| - 1], es[|es| - 1];
      StripMembers(init, qid, f);
      assert es == init + [last];
      if qid !in last.queries {
        RemoveFirstAbsent(last.queries, qid);
        assert StripEntry(last, qid) == last;
      }
      assert Strip(es, qid)
          == Strip(init, qid) + (if StripEntry(last, qid).queries == [] then [] else [StripEntry(last, qid)]);
    }
  }
}
