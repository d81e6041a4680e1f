// The lookup state of a query in every run of the query queue: what changes it, and when.
module QueueStates {
  import opened QueueCode
  import opened QueueEntries
  import opened QueueSteps
  import opened QueueProtocol

  /** The state of a live query after a step: only its own activations, its own completions and
      what is handed out to it count. */
  function StateAfter(w: World, a: Action, x: Uuid): QueryState
    requires x in w.q.queries
  {
    var st := w.q.queries[x];
    match a
    case Activate(y, n) => if y == x then st.(requested := st.requested + n) else st
    case Next =>
      var r := QueueCode.Next(w.q).1;
      if r.Some? && x in r.value.queries then st.(scheduled := st.scheduled + 1) else st
    case Complete(y, _) => if y == x then st.(completed := st.completed + 1) else st
    case _ => st
  }

  lemma StateStep(w: World, a: Action, w': World, x: Uuid)
    requires Invariant(w) && Step(w, a, w') && x in w.q.queries && x in w'.q.queries
    ensures w'.q.queries[x] == StateAfter(w, a, x)
  {
    hide Structure, Accounted, QueueCode.Next, Charge, PlaceAll, Candidates, Strip;
    match a
    case Insert(qid, st, gs) =>
      if InsertAccepted(w.q, qid, st, gs) {
        InsertedQueries(w.q, w'.q, qid, st, gs);
      }
    case Activate(_, _) =>
    case Next =>
      NextStructure(w.q);
      var r := QueueCode.Next(w.q).1;
      if r.Some? {
        Charged(w.q.queries, r.value.queries);
      }
    case Complete(_, _) =>
    case Remove(_) =>
    case Erase(_) =>
  }

  /** A query comes to life by being inserted, with the state it is inserted with. */
  lemma NewlyLive(w: World, a: Action, w': World, x: Uuid)
    requires Invariant(w) && Step(w, a, w') && x !in w.q.queries && x in w'.q.queries
    ensures a.Insert? && a.qid == x && w'.q.queries[x] == a.st
  {
    hide Structure, Accounted, QueueCode.Next, Charge, PlaceAll, Candidates, Strip;
    match a
    case Insert(qid, st, gs) =>
      if InsertAccepted(w.q, qid, st, gs) {
        InsertedQueries(w.q, w'.q, qid, st, gs);
      }
    case Activate(_, _) =>
    case Next =>
      NextStructure(w.q);
      var r := QueueCode.Next(w.q).1;
      if r.Some? {
        Charged(w.q.queries, r.value.queries);
      }
    case Complete(_, _) =>
    case Remove(_) =>
    case Erase(_) =>
  }

  /** The partitions that activations of a query grant it. */
  function Grants(actions: seq<Action>, x: Uuid): nat {
    if actions == [] then 0
    else
      var last := actions[|actions| - 1];
      Grants(actions[..|actions| - 1], x) + (if last.Activate? && last.qid == x then last.n else 0)
  }

  /**
   * In every reachable state, a live query was inserted at some step k, has requested what it
   * was inserted with and what its activations since then granted it, and is otherwise as
   * inserted but for the partitions scheduled and completed.
   */
  lemma {:induction false} GrantedExactly(ws: seq<World>, actions: seq<Action>, i: nat, x: Uuid) returns (k: nat)
    requires Run(ws, actions) && i < |ws| && x in ws[i].q.queries
    ensures k < i && actions[k].Insert? && actions[k].qid == x
    ensures var st, now := actions[k].st, ws[i].q.queries[x];
            && now.requested == st.requested + Grants(actions[k + 1..i], x)
            && now.priority == st.priority && now.client == st.client && now.candidates == st.candidates
    decreases i
  {
    hide Invariant, Step;
    assert i > 0;
    RunInvariant(ws, actions, i - 1);
    assert Step(ws[i - 1], actions[i - 1], ws[i]);
    if x in ws[i - 1].q.queries {
      k := GrantedExactly(ws, actions, i - 1, x);
      StateStep(ws[i - 1], actions[i - 1], ws[i], x);
      assert actions[k + 1..i][..i - k - 2] == actions[k + 1..i - 1];
    } else {
      k := i - 1;
      NewlyLive(ws[i - 1], actions[i - 1], ws[i], x);
      assert actions[k + 1..i] == [];
    }
  }

  /** Activating a query with pending work makes next find something. */
  lemma ActivationWakes(ws: seq<World>, actions: seq<Action>, i: nat, x: Uuid, n: nat)
    requires Run(ws, actions) && i < |actions| && actions[i] == Activate(x, n) && n > 0
    requires x in ws[i].q.queries && Pending(All(ws[i].q), x) != {}
    ensures QueueCode.Next(ws[i + 1].q).1.Some?
  {
    hide QueueCode.Next, Invariant, Step;
    RunInvariant(ws, actions, i);
    assert Step(ws[i], actions[i], ws[i + 1]);
    WokenUp(ws[i], ws[i + 1], x, n);
  }

  lemma WokenUp(w: World, w': World, x: Uuid, n: nat)
    requires Invariant(w) && Step(w, Activate(x, n), w') && n > 0
    requires x in w.q.queries && Pending(All(w.q), x) != {}
    ensures QueueCode.Next(w'.q).1.Some?
  {
    hide QueueCode.Next, Structure, With, Without;
    assert Accounted(w, x);
    ActivateStructure(w.q, w'.q, x, n);
    StateStep(w, Activate(x, n), w', x);
    assert HasCredit(w'.q.queries, x);
    var p :| p in Pending(All(w.q), x);
    var e :| e in All(w.q) && x in e.queries && e.partition == p;
    assert Creditable(w'.q.queries, e);
    NextChoice(w'.q);
  }
}
