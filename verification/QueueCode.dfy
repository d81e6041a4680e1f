// The query queue as a value, and its operations on that value.
module QueueCode {
  import opened Options

  type Uuid = nat
  type Schema = string
  type Client = nat

  /** The lookup state of a query: its priority, its client and its partition counters. */
  datatype QueryState = QueryState(
    priority: nat,
    client: Client,
    candidates: nat,
    requested: nat,
    scheduled: nat,
    completed: nat)

  /** A partition and the queries that still have to visit it. */
  datatype Entry = Entry(partition: Uuid, schema: Schema, priority: nat, queries: seq<Uuid>, erased: bool)

  datatype Queue = Queue(queries: map<Uuid, QueryState>, active: seq<Entry>, inactive: seq<Entry>)

  // -- sorting by priority ---------------------------------------------------------

  predicate Sorted(es: seq<Entry>) {
    forall i, j :: 0 <= i < j < |es| ==> es[i].priority <= es[j].priority
  }

  /** Sorting leaves open in which order entries of equal priority end up. */
  predicate SortOf(r: seq<Entry>, es: seq<Entry>) {
    Sorted(r) && multiset(r) == multiset(es)
  }

  // -- insert -------------------------------------------------------------------------

  datatype Candidate = Candidate(partition: Uuid, schema: Schema)

  /** The position of the entry of a partition, or the length of the list if there is none. */
  function Find(es: seq<Entry>, pid: Uuid): (i: nat)
    ensures i <= |es|
    ensures i < |es| ==> es[i].partition == pid
    ensures forall j :: 0 <= j < i ==> es[j].partition != pid
  {
    if es == [] then 0
    else if es[0].partition == pid then 0
    else 1 + Find(es[1..], pid)
  }

  function Join(e: Entry, qid: Uuid, priority: nat): Entry {
    e.(priority := e.priority + priority, queries := e.queries + [qid])
  }

  /** Adds one candidate partition of a query. */
  function Place(q: Queue, qid: Uuid, priority: nat, c: Candidate): Queue {
    var i := Find(q.active, c.partition);
    if i < |q.active| then
      q.(active := q.active[i := Join(q.active[i], qid, priority)])
    else
      var j := Find(q.inactive, c.partition);
      if j < |q.inactive| then
        q.(active := q.active + [Join(q.inactive[j], qid, priority)],
           inactive := q.inactive[..j] + q.inactive[j + 1..])
      else
        q.(active := q.active + [Entry(c.partition, c.schema, priority, [qid], false)])
  }

  function PlaceAll(q: Queue, qid: Uuid, priority: nat, cs: seq<Candidate>): Queue {
    if cs == [] then q
    else Place(PlaceAll(q, qid, priority, cs[..|cs| - 1]), qid, priority, cs[|cs| - 1])
  }

  /** Candidates come grouped by schema. */
  datatype Group = Group(schema: Schema, partitions: seq<Uuid>)

  function GroupCandidates(g: Group): (cs: seq<Candidate>)
    ensures |cs| == |g.partitions|
  {
    seq(|g.partitions|, i requires 0 <= i < |g.partitions| => Candidate(g.partitions[i], g.schema))
  }

  function Candidates(gs: seq<Group>): seq<Candidate> {
    if gs == [] then [] else Candidates(gs[..|gs| - 1]) + GroupCandidates(gs[|gs| - 1])
  }

  predicate InsertAccepted(q: Queue, qid: Uuid, st: QueryState, gs: seq<Group>) {
    gs != [] && st.candidates == |Candidates(gs)| && qid !in q.queries
  }

  /** One insertion, accepted or refused. */
  ghost predicate Inserted(q: Queue, q': Queue, qid: Uuid, st: QueryState, gs: seq<Group>) {
    if InsertAccepted(q, qid, st, gs) then
      var p := PlaceAll(q.(queries := q.queries[qid := st]), qid, st.priority, Candidates(gs));
      q'.queries == p.queries && q'.inactive == p.inactive && SortOf(q'.active, p.active)
    else
      q' == q
  }

  // -- activate -----------------------------------------------------------------------

  function With(es: seq<Entry>, qid: Uuid): seq<Entry> {
    if es == [] then []
    else With(es[..|es| - 1], qid) + (if qid in es[|es| - 1].queries then [es[|es| - 1]] else [])
  }

  function Without(es: seq<Entry>, qid: Uuid): seq<Entry> {
    if es == [] then []
    else Without(es[..|es| - 1], qid) + (if qid in es[|es| - 1].queries then [] else [es[|es| - 1]])
  }

  function Grant(st: QueryState, n: nat): QueryState {
    st.(requested := st.requested + n)
  }

  /** Grants a query more partitions and makes its inactive entries active again. */
  ghost predicate Activated(q: Queue, q': Queue, qid: Uuid, n: nat) {
    if qid in q.queries then
      && q'.queries == q.queries[qid := Grant(q.queries[qid], n)]
      && q'.inactive == Without(q.inactive, qid)
      && SortOf(q'.active, q.active + With(q.inactive, qid))
    else
      q' == q
  }

  // -- next -----------------------------------------------------------------------------

  predicate HasCredit(queries: map<Uuid, QueryState>, qid: Uuid) {
    qid in queries && queries[qid].requested > queries[qid].scheduled
  }

  function WithCredit(queries: map<Uuid, QueryState>, qids: seq<Uuid>): seq<Uuid> {
    if qids == [] then []
    else WithCredit(queries, qids[..|qids| - 1])
         + (if HasCredit(queries, qids[|qids| - 1]) then [qids[|qids| - 1]] else [])
  }

  function WithoutCredit(queries: map<Uuid, QueryState>, qids: seq<Uuid>): seq<Uuid> {
    if qids == [] then []
    else WithoutCredit(queries, qids[..|qids| - 1])
         + (if HasCredit(queries, qids[|qids| - 1]) then [] else [qids[|qids| - 1]])
  }

  function Live(queries: map<Uuid, QueryState>, qids: seq<Uuid>): seq<Uuid> {
    if qids == [] then []
    else Live(queries, qids[..|qids| - 1]) + (if qids[|qids| - 1] in queries then [qids[|qids| - 1]] else [])
  }

  function TotalPriority(queries: map<Uuid, QueryState>, qids: seq<Uuid>): nat {
    if qids == [] then 0
    else TotalPriority(queries, qids[..|qids| - 1])
         + (if qids[|qids| - 1] in queries then queries[qids[|qids| - 1]].priority else 0)
  }

  /** The entry that is handed out: the queries of an entry that have credit. */
  function Scheduled(queries: map<Uuid, QueryState>, e: Entry): Entry {
    Entry(e.partition, e.schema, 0, WithCredit(queries, e.queries), e.erased)
  }

  /** What is set aside of an entry: its queries without credit. */
  function SetAside(queries: map<Uuid, QueryState>, e: Entry): seq<Entry> {
    var rest := WithoutCredit(queries, e.queries);
    if rest == [] then []
    else [Entry(e.partition, e.schema, TotalPriority(queries, rest), Live(queries, rest), e.erased)]
  }

  function Charge(queries: map<Uuid, QueryState>, qids: seq<Uuid>): map<Uuid, QueryState> {
    if qids == [] then queries
    else
      var m := Charge(queries, qids[..|qids| - 1]);
      var qid := qids[|qids| - 1];
      if qid in m then m[qid := m[qid].(scheduled := m[qid].scheduled + 1)] else m
  }

  /** Takes entries from the back until one has a query with credit. */
  function Next(q: Queue): (Queue, Option<Entry>)
    decreases |q.active|
  {
    if q.active == [] then (q, None)
    else
      var e := q.active[|q.active| - 1];
      var p := Queue(q.queries, q.active[..|q.active| - 1], q.inactive + SetAside(q.queries, e));
      var out := Scheduled(q.queries, e);
      if out.queries == [] then Next(p)
      else (p.(queries := Charge(q.queries, out.queries)), Some(out))
  }

  // -- completion and removal -------------------------------------------------------------

  /** Whether some entry still refers to a query. */
  ghost predicate Reachable(q: Queue, qid: Uuid) {
    exists e :: e in q.active + q.inactive && qid in e.queries
  }

  function Complete(q: Queue, qid: Uuid): (Queue, Option<Client>) {
    if qid !in q.queries then (q, None)
    else
      var st := q.queries[qid];
      var st' := st.(completed := st.completed + 1);
      (q.(queries := if st'.completed == st'.candidates then q.queries - {qid} else q.queries[qid := st']),
       if st'.completed == st'.requested then Some(st.client) else None)
  }

  function RemoveFirst(qids: seq<Uuid>, qid: Uuid): seq<Uuid> {
    if qids == [] then []
    else if qids[0] == qid then qids[1..]
    else [qids[0]] + RemoveFirst(qids[1..], qid)
  }

  /** Takes a query out of all entries and drops entries that it leaves empty. */
  function Strip(es: seq<Entry>, qid: Uuid): seq<Entry> {
    if es == [] then []
    else
      var e := es[|es| - 1];
      var e' := e.(queries := RemoveFirst(e.queries, qid));
      Strip(es[..|es| - 1], qid)
      + (if qid !in e.queries then [e] else if e'.queries == [] then [] else [e'])
  }

  function Remove(q: Queue, qid: Uuid): Queue {
    if qid !in q.queries then q
    else Queue(q.queries - {qid}, Strip(q.active, qid), Strip(q.inactive, qid))
  }

  function MarkErased(q: Queue, pid: Uuid): (Queue, bool) {
    var i := Find(q.active, pid);
    if i < |q.active| then (q.(active := q.active[i := q.active[i].(erased := true)]), true)
    else
      var j := Find(q.inactive, pid);
      if j < |q.inactive| then (q.(inactive := q.inactive[j := q.inactive[j].(erased := true)]), true)
      else (q, false)
  }
}
