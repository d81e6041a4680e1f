// What pruning prunes: which lookups are merged, and that none is left to merge.
module PruneResults {
  import opened Expressions
  import opened Normalizing
  import opened NormalForms
  import opened Readings
  import opened NormalFixpoints
  import opened Sizes
  import opened Pruning

  /** A comparison of all strings, or of a field that may be pruned, with a text. */
  predicate StringLookup(p: Predicate, unprunable: set<string>) {
    && p.rhs.Literal? && p.rhs.data.Text?
    && match p.lhs
       case FieldExtractor(field) => field !in unprunable
       case TypeExtractor(typ) => typ == StringType
       case _ => false
  }

  /** An operand that looks up this value with this operator. */
  predicate LooksUp(e: Expression, op: RelationalOperator, rhs: Operand, unprunable: set<string>) {
    e.Atom? && e.pred.op == op && e.pred.rhs == rhs && StringLookup(e.pred, unprunable)
  }

  /** No two operands look up the same value with the same operator. */
  ghost predicate NoTwinOperands(es: seq<Expression>, unprunable: set<string>) {
    forall j, k :: 0 <= j < k < |es| && es[j].Atom? && StringLookup(es[j].pred, unprunable) ==>
      !LooksUp(es[k], es[j].pred.op, es[j].pred.rhs, unprunable)
  }

  ghost predicate NoTwins(e: Expression, unprunable: set<string>) {
    match e
    case Empty => true
    case Conjunction(ops) => NoTwinOperands(ops, unprunable) && forall x | x in ops :: NoTwins(x, unprunable)
    case Disjunction(ops) => NoTwinOperands(ops, unprunable) && forall x | x in ops :: NoTwins(x, unprunable)
    case Negation(x) => NoTwins(x, unprunable)
    case Atom(_) => true
  }

  lemma PrunableLookup(e: Expression, p: Predicate, unprunable: set<string>)
    ensures PrunableAtom(e, unprunable) <==> e.Atom? && StringLookup(e.pred, unprunable)
    ensures SameLookup(e, p, unprunable) <==> LooksUp(e, p.op, p.rhs, unprunable)
  {
  }

  // -- expressions with nothing to prune ----------------------------------------------------------

  /** No operand looks up what e does. */
  ghost predicate Fresh(es: seq<Expression>, e: Expression, unprunable: set<string>) {
    PrunableAtom(e, unprunable) ==> forall j :: 0 <= j < |es| ==> !SameLookup(es[j], e.pred, unprunable)
  }

  /** An operand stays where it is unless an earlier one looks up the same. */
  lemma AddedLast(r: seq<Expression>, e: Expression, pruned: Expression, unprunable: set<string>)
    requires PrunableAtom(e, unprunable) ==> pruned == e
    ensures var r' := AddOperand(r, e, pruned, unprunable);
            if Fresh(r, e, unprunable) then r' == r + [pruned] else |r'| == |r|
  {
    hide Prunable, SameLookup;
    if PrunableAtom(e, unprunable) {
      AddPrunable(r, e, pruned, unprunable);
    }
  }

  lemma {:induction false} OperandsShorter(es: seq<Expression>, unprunable: set<string>)
    ensures |PruneOperands(es, unprunable)| <= |es|
    decreases |es|
  {
    if es == [] {
    } else {
      hide PruneOnce, PruneOperands, AddOperand, PrunableAtom, Fresh;
      var init, e := es[..|es| - 1], es[|es| - 1];
      assert init + [e] == es;
      OperandsShorter(init, unprunable);
      PruneOperandsLast(init, e, unprunable);
      PrunedAtom(e, unprunable);
      AddedLast(PruneOperands(init, unprunable), e, PruneOnce(e, unprunable), unprunable);
    }
  }

  lemma PrunedAtom(e: Expression, unprunable: set<string>)
    ensures PrunableAtom(e, unprunable) ==> PruneOnce(e, unprunable) == e
  {
  }

  /** Operands with the last of them looking up what none before it does. */
  lemma TwinsLast(es: seq<Expression>, e: Expression, unprunable: set<string>)
    ensures NoTwinOperands(es + [e], unprunable) <==>
              NoTwinOperands(es, unprunable) && Fresh(es, e, unprunable)
  {
    var fs := es + [e];
    assert forall j :: 0 <= j < |es| ==> fs[j] == es[j];
    if NoTwinOperands(fs, unprunable) {
      forall j, k | 0 <= j < k < |es| && es[j].Atom? && StringLookup(es[j].pred, unprunable)
        ensures !LooksUp(es[k], es[j].pred.op, es[j].pred.rhs, unprunable)
      {
        assert fs[j] == es[j] && fs[k] == es[k];
      }
      forall j | 0 <= j < |es| && PrunableAtom(e, unprunable)
        ensures !SameLookup(es[j], e.pred, unprunable)
      {
        assert fs[j] == es[j] && fs[|es|] == e;
      }
    }
  }

  lemma LastLeft(es: seq<Expression>, e: Expression, unprunable: set<string>)
    requires |PruneOperands(es, unprunable)| <= |es|
    ensures PruneOperands(es + [e], unprunable) == es + [e] <==>
              PruneOperands(es, unprunable) == es && PruneOnce(e, unprunable) == e && Fresh(es, e, unprunable)
  {
    hide PruneOnce, PruneOperands, PrunableAtom, AddOperand, Fresh;
    var r, pruned := PruneOperands(es, unprunable), PruneOnce(e, unprunable);
    PruneOperandsLast(es, e, unprunable);
    PrunedAtom(e, unprunable);
    AddedLast(r, e, pruned, unprunable);
    assert r + [pruned] == es + [e] <==> r == es && pruned == e by { SameLast(r, pruned, es, e); }
  }

  lemma SameLast<T>(a: seq<T>, x: T, b: seq<T>, y: T)
    ensures a + [x] == b + [y] <==> a == b && x == y
  {
    if a + [x] == b + [y] {
      assert |a| == |b| && (a + [x])[..|a|] == a && (b + [y])[..|b|] == b;
      assert (a + [x])[|a|] == x && (b + [y])[|b|] == y;
    }
  }

  lemma {:induction false} OperandsLeft(es: seq<Expression>, unprunable: set<string>)
    ensures PruneOperands(es, unprunable) == es <==>
              NoTwinOperands(es, unprunable) && forall x | x in es :: PruneOnce(x, unprunable) == x
    decreases |es|
  {
    if es == [] {
    } else {
      hide PruneOnce, PruneOperands, NoTwinOperands, Fresh;
      var init, e := es[..|es| - 1], es[|es| - 1];
      assert init + [e] == es;
      OperandsLeft(init, unprunable);
      OperandsShorter(init, unprunable);
      LastLeft(init, e, unprunable);
      TwinsLast(init, e, unprunable);
    }
  }

  /** The pruner leaves exactly the expressions without twins as they are. */
  lemma {:induction false} PruneLeaves(e: Expression, unprunable: set<string>)
    ensures PruneOnce(e, unprunable) == e <==> NoTwins(e, unprunable)
  {
    match e
    case Empty =>
    case Conjunction(ops) =>
      hide NoTwinOperands, PruneOperands;
      OperandsLeft(ops, unprunable);
      forall x | x in ops
        ensures PruneOnce(x, unprunable) == x <==> NoTwins(x, unprunable)
      {
        PruneLeaves(x, unprunable);
      }
    case Disjunction(ops) =>
      hide NoTwinOperands, PruneOperands;
      OperandsLeft(ops, unprunable);
      forall x | x in ops
        ensures PruneOnce(x, unprunable) == x <==> NoTwins(x, unprunable)
      {
        PruneLeaves(x, unprunable);
      }
    case Negation(x) => PruneLeaves(x, unprunable);
    case Atom(_) =>
  }

  /** After pruning no connective, at any depth, looks up the same twice; and an expression is
      pruned at all exactly if one did. */
  lemma NothingLeftToPrune(e: Expression, unprunable: set<string>)
    ensures NoTwins(Pruned(e, unprunable), unprunable)
    ensures Pruned(e, unprunable) == e <==> NoTwins(e, unprunable)
  {
    hide PruneOnce, Hoist, NoTwins, PruneRounds, PrunedFrom;
    PrunedEnd(e, unprunable);
    PruneLeaves(Pruned(e, unprunable), unprunable);
    PruneLeaves(e, unprunable);
    var r := PruneOnce(e, unprunable);
    PrunedOnce(e, unprunable);
    if r != e {
      RoundsEnd(r, unprunable);
      SmallerThan(e, r, PruneRounds(r, unprunable), unprunable);
    }
  }

  lemma SmallerThan(e: Expression, r: Expression, end: Expression, unprunable: set<string>)
    requires PrunedFrom(e, r, unprunable) && PrunedFrom(r, end, unprunable) && Size(r) != Size(e)
    ensures end != e
  {
  }

  // -- where the atoms of a pruned expression come from ---------------------------------------------

  predicate AtomOf(p: Predicate, e: Expression) {
    match e
    case Empty => false
    case Conjunction(ops) => exists x | x in ops :: AtomOf(p, x)
    case Disjunction(ops) => exists x | x in ops :: AtomOf(p, x)
    case Negation(x) => AtomOf(p, x)
    case Atom(q) => p == q
  }

  /** Two operands look up this value with this operator. */
  ghost predicate Pair(es: seq<Expression>, op: RelationalOperator, rhs: Operand, unprunable: set<string>) {
    exists j, k :: 0 <= j < k < |es| && LooksUp(es[j], op, rhs, unprunable) && LooksUp(es[k], op, rhs, unprunable)
  }

  /** Some connective has two such operands. */
  ghost predicate LookedUpTwice(e: Expression, op: RelationalOperator, rhs: Operand, unprunable: set<string>) {
    match e
    case Empty => false
    case Conjunction(ops) =>
      Pair(ops, op, rhs, unprunable) || exists x | x in ops :: LookedUpTwice(x, op, rhs, unprunable)
    case Disjunction(ops) =>
      Pair(ops, op, rhs, unprunable) || exists x | x in ops :: LookedUpTwice(x, op, rhs, unprunable)
    case Negation(x) => LookedUpTwice(x, op, rhs, unprunable)
    case Atom(_) => false
  }

  ghost predicate AnyLooksUp(es: seq<Expression>, op: RelationalOperator, rhs: Operand, unprunable: set<string>) {
    exists k :: 0 <= k < |es| && LooksUp(es[k], op, rhs, unprunable)
  }

  /** A pruned operand is an operand, pruned by itself, or the merger of two lookups. */
  ghost predicate FromOperands(es: seq<Expression>, x: Expression, unprunable: set<string>) {
    && ((exists k :: 0 <= k < |es| && x == PruneOnce(es[k], unprunable))
        || (x.Atom? && x.pred.lhs == TypeExtractor(StringType) && Pair(es, x.pred.op, x.pred.rhs, unprunable)))
    && (PrunableAtom(x, unprunable) ==> AnyLooksUp(es, x.pred.op, x.pred.rhs, unprunable))
  }

  lemma FromMore(es: seq<Expression>, e: Expression, x: Expression, unprunable: set<string>)
    requires FromOperands(es, x, unprunable)
    ensures FromOperands(es + [e], x, unprunable)
  {
    hide PruneOnce, LooksUp, Prunable;
    var fs := es + [e];
    assert forall k :: 0 <= k < |es| ==> fs[k] == es[k];
    if k :| 0 <= k < |es| && x == PruneOnce(es[k], unprunable) {
      assert x == PruneOnce(fs[k], unprunable);
    } else {
      var op, rhs := x.pred.op, x.pred.rhs;
      var j, k :| 0 <= j < k < |es| && LooksUp(es[j], op, rhs, unprunable) && LooksUp(es[k], op, rhs, unprunable);
      assert LooksUp(fs[j], op, rhs, unprunable) && LooksUp(fs[k], op, rhs, unprunable);
    }
    if PrunableAtom(x, unprunable) {
      assert AnyLooksUp(fs, x.pred.op, x.pred.rhs, unprunable) by {
        StillLooksUp(es, e, x.pred.op, x.pred.rhs, unprunable);
      }
    }
  }

  lemma StillLooksUp(es: seq<Expression>, e: Expression, op: RelationalOperator, rhs: Operand, unprunable: set<string>)
    ensures AnyLooksUp(es, op, rhs, unprunable) ==> AnyLooksUp(es + [e], op, rhs, unprunable)
    ensures LooksUp(e, op, rhs, unprunable) ==> AnyLooksUp(es + [e], op, rhs, unprunable)
    ensures AnyLooksUp(es, op, rhs, unprunable) && LooksUp(e, op, rhs, unprunable) ==> Pair(es + [e], op, rhs, unprunable)
  {
    hide LooksUp;
    var fs := es + [e];
    assert fs[|es|] == e;
    if AnyLooksUp(es, op, rhs, unprunable) {
      var k :| 0 <= k < |es| && LooksUp(es[k], op, rhs, unprunable);
      assert fs[k] == es[k];
    }
  }

  lemma LastFrom(es: seq<Expression>, e: Expression, unprunable: set<string>)
    ensures FromOperands(es + [e], PruneOnce(e, unprunable), unprunable)
  {
    var fs, x := es + [e], PruneOnce(e, unprunable);
    assert fs[|es|] == e;
    assert x == PruneOnce(fs[|es|], unprunable);
    if PrunableAtom(x, unprunable) {
      assert x == e;
      PrunableLookup(e, e.pred, unprunable);
      StillLooksUp(es, e, e.pred.op, e.pred.rhs, unprunable);
    }
  }

  lemma MergedFrom(es: seq<Expression>, e: Expression, unprunable: set<string>)
    requires PrunableAtom(e, unprunable) && AnyLooksUp(es, e.pred.op, e.pred.rhs, unprunable)
    ensures FromOperands(es + [e], Atom(AnyString(e.pred)), unprunable)
  {
    PrunableLookup(e, e.pred, unprunable);
    StillLooksUp(es, e, e.pred.op, e.pred.rhs, unprunable);
  }

  lemma {:induction false} OperandsFrom(es: seq<Expression>, unprunable: set<string>)
    ensures forall x :: x in PruneOperands(es, unprunable) ==> FromOperands(es, x, unprunable)
    decreases |es|
  {
    if es == [] {
    } else {
      var init, e := es[..|es| - 1], es[|es| - 1];
      assert init + [e] == es;
      OperandsFrom(init, unprunable);
      hide PruneOnce, PruneOperands, FromOperands, AnyLooksUp, Prunable, AddOperand;
      PruneOperandsLast(init, e, unprunable);
      StepFrom(init, e, PruneOperands(init, unprunable), unprunable);
    }
  }

  lemma StepFrom(es: seq<Expression>, e: Expression, r: seq<Expression>, unprunable: set<string>)
    requires forall x :: x in r ==> FromOperands(es, x, unprunable)
    ensures forall x :: x in AddOperand(r, e, PruneOnce(e, unprunable), unprunable) ==>
              FromOperands(es + [e], x, unprunable)
  {
    hide PruneOnce, FromOperands, Prunable;
    forall x | x in r
      ensures FromOperands(es + [e], x, unprunable)
    {
      FromMore(es, e, x, unprunable);
    }
    LastFrom(es, e, unprunable);
    PrunedAtom(e, unprunable);
    if PrunableAtom(e, unprunable) {
      var k := Twin(r, e.pred, unprunable);
      if k < |r| {
        assert AnyLooksUp(es, e.pred.op, e.pred.rhs, unprunable) by { LookedUpBefore(es, r[k], unprunable); }
        MergedFrom(es, e, unprunable);
      }
    }
  }

  lemma LookedUpBefore(es: seq<Expression>, x: Expression, unprunable: set<string>)
    requires FromOperands(es, x, unprunable) && PrunableAtom(x, unprunable)
    ensures AnyLooksUp(es, x.pred.op, x.pred.rhs, unprunable)
  {
  }

  /** An atom that one round of pruning makes is a lookup in all strings, of what some
      connective looked up twice. */
  lemma {:induction false} OnceMerges(e: Expression, unprunable: set<string>, p: Predicate)
    requires AtomOf(p, PruneOnce(e, unprunable))
    ensures AtomOf(p, e)
            || (p.lhs == TypeExtractor(StringType) && LookedUpTwice(e, p.op, p.rhs, unprunable))
  {
    match e
    case Empty =>
    case Conjunction(ops) => OperandsMerge(ops, unprunable, p);
    case Disjunction(ops) => OperandsMerge(ops, unprunable, p);
    case Negation(x) => OnceMerges(x, unprunable, p);
    case Atom(_) =>
  }

  lemma {:induction false} OperandsMerge(es: seq<Expression>, unprunable: set<string>, p: Predicate)
    requires exists x | x in PruneOperands(es, unprunable) :: AtomOf(p, x)
    ensures (exists x | x in es :: AtomOf(p, x))
            || (&& p.lhs == TypeExtractor(StringType)
                && (Pair(es, p.op, p.rhs, unprunable)
                    || exists x | x in es :: LookedUpTwice(x, p.op, p.rhs, unprunable)))
    decreases es, 0
  {
    hide PruneOnce, PruneOperands, Pair;
    OperandsFrom(es, unprunable);
    var x :| x in PruneOperands(es, unprunable) && AtomOf(p, x);
    assert FromOperands(es, x, unprunable);
    if k :| 0 <= k < |es| && x == PruneOnce(es[k], unprunable) {
      assert es[k] in es;
      OnceMerges(es[k], unprunable, p);
    } else {
      assert p == x.pred;
    }
  }

  // -- whole runs of the pruner -----------------------------------------------------------------------

  /** How many atoms look up this value with this operator. */
  function Count(e: Expression, op: RelationalOperator, rhs: Operand, unprunable: set<string>): nat
    decreases e
  {
    match e
    case Empty => 0
    case Conjunction(ops) => CountAll(ops, op, rhs, unprunable)
    case Disjunction(ops) => CountAll(ops, op, rhs, unprunable)
    case Negation(x) => Count(x, op, rhs, unprunable)
    case Atom(_) => if LooksUp(e, op, rhs, unprunable) then 1 else 0
  }

  function CountAll(es: seq<Expression>, op: RelationalOperator, rhs: Operand, unprunable: set<string>): nat
    decreases es
  {
    if es == [] then 0
    else CountAll(es[..|es| - 1], op, rhs, unprunable) + Count(es[|es| - 1], op, rhs, unprunable)
  }

  lemma {:induction false} CountAppend(
    es: seq<Expression>, fs: seq<Expression>, op: RelationalOperator, rhs: Operand, unprunable: set<string>)
    ensures CountAll(es + fs, op, rhs, unprunable) == CountAll(es, op, rhs, unprunable) + CountAll(fs, op, rhs, unprunable)
    decreases |fs|
  {
    hide Count;
    if fs == [] {
      assert es + fs == es;
    } else {
      CountAppend(es, fs[..|fs| - 1], op, rhs, unprunable);
      assert (es + fs)[..|es + fs| - 1] == es + fs[..|fs| - 1];
    }
  }

  lemma CountOne(e: Expression, op: RelationalOperator, rhs: Operand, unprunable: set<string>)
    ensures CountAll([e], op, rhs, unprunable) == Count(e, op, rhs, unprunable)
  {
    hide Count;
    assert [e][..0] == [];
    assert CountAll([], op, rhs, unprunable) == 0;
  }

  lemma {:induction false} CountUpdate(
    es: seq<Expression>, k: nat, e: Expression, op: RelationalOperator, rhs: Operand, unprunable: set<string>)
    requires k < |es| && Count(e, op, rhs, unprunable) == Count(es[k], op, rhs, unprunable)
    ensures CountAll(es[k := e], op, rhs, unprunable) == CountAll(es, op, rhs, unprunable)
    decreases |es|
  {
    hide Count;
    var last := |es| - 1;
    if k < last {
      CountUpdate(es[..last], k, e, op, rhs, unprunable);
      assert es[k := e][..last] == es[..last][k := e];
    } else {
      assert es[k := e][..last] == es[..last];
    }
  }

  /** Every atom is an old one or a lookup in all strings of what was looked up twice, and
      nothing is looked up more often than before. */
  ghost predicate Merges(e: Expression, r: Expression, unprunable: set<string>) {
    && (forall p :: AtomOf(p, r) ==>
          AtomOf(p, e) || (p.lhs == TypeExtractor(StringType) && Count(e, p.op, p.rhs, unprunable) >= 2))
    && (forall op, rhs :: Count(r, op, rhs, unprunable) <= Count(e, op, rhs, unprunable))
  }

  lemma MergesTransitive(e: Expression, f: Expression, g: Expression, unprunable: set<string>)
    requires Merges(e, f, unprunable) && Merges(f, g, unprunable)
    ensures Merges(e, g, unprunable)
  {
    hide AtomOf, Count;
    forall op, rhs
      ensures Count(g, op, rhs, unprunable) <= Count(e, op, rhs, unprunable)
    {
      assert Count(g, op, rhs, unprunable) <= Count(f, op, rhs, unprunable);
    }
  }

  // One round of the pruner.

  ghost predicate Fewer(e: Expression, op: RelationalOperator, rhs: Operand, unprunable: set<string>) {
    Count(PruneOnce(e, unprunable), op, rhs, unprunable) <= Count(e, op, rhs, unprunable)
  }

  lemma AddCount(
    r: seq<Expression>, e: Expression, pruned: Expression, op: RelationalOperator, rhs: Operand, unprunable: set<string>)
    requires Count(pruned, op, rhs, unprunable) <= Count(e, op, rhs, unprunable)
    ensures CountAll(AddOperand(r, e, pruned, unprunable), op, rhs, unprunable)
         <= CountAll(r, op, rhs, unprunable) + Count(e, op, rhs, unprunable)
  {
    hide CountAll;
    CountAppend(r, [e], op, rhs, unprunable);
    CountAppend(r, [pruned], op, rhs, unprunable);
    CountOne(e, op, rhs, unprunable);
    CountOne(pruned, op, rhs, unprunable);
    if PrunableAtom(e, unprunable) {
      var k := Twin(r, e.pred, unprunable);
      if k < |r| {
        CountUpdate(r, k, Atom(AnyString(e.pred)), op, rhs, unprunable);
      }
    }
  }

  lemma {:induction false} OperandsCount(es: seq<Expression>, op: RelationalOperator, rhs: Operand, unprunable: set<string>)
    requires forall x | x in es :: Fewer(x, op, rhs, unprunable)
    ensures CountAll(PruneOperands(es, unprunable), op, rhs, unprunable) <= CountAll(es, op, rhs, unprunable)
    decreases |es|
  {
    if es == [] {
    } else {
      hide CountAll, Count, PruneOnce, PruneOperands, AddOperand;
      var init, e := es[..|es| - 1], es[|es| - 1];
      assert init + [e] == es;
      assert Fewer(e, op, rhs, unprunable);
      OperandsCount(init, op, rhs, unprunable);
      PruneOperandsLast(init, e, unprunable);
      AddCount(PruneOperands(init, unprunable), e, PruneOnce(e, unprunable), op, rhs, unprunable);
      CountAppend(init, [e], op, rhs, unprunable);
      CountOne(e, op, rhs, unprunable);
    }
  }

  lemma {:induction false} OnceFewer(e: Expression, op: RelationalOperator, rhs: Operand, unprunable: set<string>)
    ensures Fewer(e, op, rhs, unprunable)
  {
    match e
    case Empty =>
    case Conjunction(ops) =>
      forall x | x in ops
        ensures Fewer(x, op, rhs, unprunable)
      {
        OnceFewer(x, op, rhs, unprunable);
      }
      OperandsCount(ops, op, rhs, unprunable);
    case Disjunction(ops) =>
      forall x | x in ops
        ensures Fewer(x, op, rhs, unprunable)
      {
        OnceFewer(x, op, rhs, unprunable);
      }
      OperandsCount(ops, op, rhs, unprunable);
    case Negation(x) => OnceFewer(x, op, rhs, unprunable);
    case Atom(_) =>
  }

  lemma {:induction false} MemberCount(
    es: seq<Expression>, k: nat, op: RelationalOperator, rhs: Operand, unprunable: set<string>)
    requires k < |es|
    ensures CountAll(es[..k], op, rhs, unprunable) + Count(es[k], op, rhs, unprunable)
         <= CountAll(es, op, rhs, unprunable)
    decreases |es|
  {
    hide Count;
    if k < |es| - 1 {
      MemberCount(es[..|es| - 1], k, op, rhs, unprunable);
      assert es[..|es| - 1][..k] == es[..k];
    }
  }

  lemma PairCount(es: seq<Expression>, op: RelationalOperator, rhs: Operand, unprunable: set<string>)
    requires Pair(es, op, rhs, unprunable)
    ensures CountAll(es, op, rhs, unprunable) >= 2
  {
    hide CountAll;
    var j, k :| 0 <= j < k < |es| && LooksUp(es[j], op, rhs, unprunable) && LooksUp(es[k], op, rhs, unprunable);
    MemberCount(es, k, op, rhs, unprunable);
    MemberCount(es[..k], j, op, rhs, unprunable);
    assert es[..k][j] == es[j];
  }

  lemma {:induction false} TwiceCounts(e: Expression, op: RelationalOperator, rhs: Operand, unprunable: set<string>)
    requires LookedUpTwice(e, op, rhs, unprunable)
    ensures Count(e, op, rhs, unprunable) >= 2
  {
    match e
    case Conjunction(ops) => TwiceCountsIn(ops, op, rhs, unprunable);
    case Disjunction(ops) => TwiceCountsIn(ops, op, rhs, unprunable);
    case Negation(x) => TwiceCounts(x, op, rhs, unprunable);
  }

  lemma {:induction false} TwiceCountsIn(
    es: seq<Expression>, op: RelationalOperator, rhs: Operand, unprunable: set<string>)
    requires Pair(es, op, rhs, unprunable) || exists x | x in es :: LookedUpTwice(x, op, rhs, unprunable)
    ensures CountAll(es, op, rhs, unprunable) >= 2
    decreases es, 0
  {
    hide CountAll, Pair;
    if Pair(es, op, rhs, unprunable) {
      PairCount(es, op, rhs, unprunable);
    } else {
      var k :| 0 <= k < |es| && LookedUpTwice(es[k], op, rhs, unprunable);
      TwiceCounts(es[k], op, rhs, unprunable);
      MemberCount(es, k, op, rhs, unprunable);
    }
  }

  lemma MergesOnce(e: Expression, unprunable: set<string>)
    ensures Merges(e, PruneOnce(e, unprunable), unprunable)
  {
    hide PruneOnce, AtomOf, Count, LookedUpTwice;
    forall p | AtomOf(p, PruneOnce(e, unprunable))
      ensures AtomOf(p, e) || (p.lhs == TypeExtractor(StringType) && Count(e, p.op, p.rhs, unprunable) >= 2)
    {
      OnceMerges(e, unprunable, p);
      if !AtomOf(p, e) {
        TwiceCounts(e, p.op, p.rhs, unprunable);
      }
    }
    forall op, rhs
      ensures Count(PruneOnce(e, unprunable), op, rhs, unprunable) <= Count(e, op, rhs, unprunable)
    {
      OnceFewer(e, op, rhs, unprunable);
    }
  }

  // Hoisting.

  function AtomsOf(e: Expression): Predicate -> bool { p => AtomOf(p, e) }

  lemma {:induction false} AllAtoms(e: Expression, f: Expression)
    requires forall p :: AtomOf(p, e) ==> AtomOf(p, f)
    ensures EveryPredicate(e, AtomsOf(f))
  {
    match e
    case Empty =>
    case Conjunction(ops) =>
      forall x | x in ops
        ensures EveryPredicate(x, AtomsOf(f))
      {
        AllAtoms(x, f);
      }
    case Disjunction(ops) =>
      forall x | x in ops
        ensures EveryPredicate(x, AtomsOf(f))
      {
        AllAtoms(x, f);
      }
    case Negation(x) => AllAtoms(x, f);
    case Atom(p) => assert AtomOf(p, e);
  }

  lemma {:induction false} AtomPasses(e: Expression, test: Predicate -> bool, p: Predicate)
    requires EveryPredicate(e, test) && AtomOf(p, e)
    ensures test(p)
  {
    match e
    case Conjunction(ops) =>
      var x :| x in ops && AtomOf(p, x);
      AtomPasses(x, test, p);
    case Disjunction(ops) =>
      var x :| x in ops && AtomOf(p, x);
      AtomPasses(x, test, p);
    case Negation(x) => AtomPasses(x, test, p);
    case Atom(_) =>
  }

  lemma {:induction false} HoistCount(e: Expression, op: RelationalOperator, rhs: Operand, unprunable: set<string>)
    ensures Count(Hoist(e), op, rhs, unprunable) == Count(e, op, rhs, unprunable)
    decreases e, 1
  {
    match e
    case Empty =>
    case Conjunction(ops) =>
      HoistOperandsCount(ops, true, op, rhs, unprunable);
      UnwrapCount(HoistOperands(ops, true), true, op, rhs, unprunable);
    case Disjunction(ops) =>
      HoistOperandsCount(ops, false, op, rhs, unprunable);
      UnwrapCount(HoistOperands(ops, false), false, op, rhs, unprunable);
    case Negation(x) => HoistCount(x, op, rhs, unprunable);
    case Atom(_) =>
  }

  lemma UnwrapCount(
    es: seq<Expression>, conjunction: bool, op: RelationalOperator, rhs: Operand, unprunable: set<string>)
    ensures Count(Unwrap(es, conjunction), op, rhs, unprunable) == CountAll(es, op, rhs, unprunable)
  {
    if |es| == 1 {
      assert es == [es[0]];
      CountOne(es[0], op, rhs, unprunable);
    }
  }

  lemma {:induction false} HoistEachCount(es: seq<Expression>, op: RelationalOperator, rhs: Operand, unprunable: set<string>)
    ensures CountAll(HoistEach(es), op, rhs, unprunable) == CountAll(es, op, rhs, unprunable)
    decreases es, 0
  {
    if es != [] {
      HoistEachCount(es[..|es| - 1], op, rhs, unprunable);
      HoistCount(es[|es| - 1], op, rhs, unprunable);
    }
  }

  lemma {:induction false} SplicedCount(
    e: Expression, conjunction: bool, op: RelationalOperator, rhs: Operand, unprunable: set<string>)
    ensures CountAll(Spliced(e, conjunction), op, rhs, unprunable) == Count(e, op, rhs, unprunable)
    decreases e, 2
  {
    if (conjunction && e.Conjunction?) || (!conjunction && e.Disjunction?) {
      HoistEachCount(e.ops, op, rhs, unprunable);
    } else {
      HoistCount(e, op, rhs, unprunable);
      CountOne(Hoist(e), op, rhs, unprunable);
    }
  }

  lemma HoistLast(es: seq<Expression>, e: Expression, conjunction: bool)
    ensures HoistOperands(es + [e], conjunction) == HoistOperands(es, conjunction) + Spliced(e, conjunction)
  {
    assert (es + [e])[..|es|] == es;
  }

  lemma {:induction false} HoistOperandsCount(
    es: seq<Expression>, conjunction: bool, op: RelationalOperator, rhs: Operand, unprunable: set<string>)
    ensures CountAll(HoistOperands(es, conjunction), op, rhs, unprunable) == CountAll(es, op, rhs, unprunable)
    decreases es, 0
  {
    if es == [] {
    } else {
      hide CountAll, Count, HoistOperands, Spliced;
      var init, e := es[..|es| - 1], es[|es| - 1];
      HoistOperandsCount(init, conjunction, op, rhs, unprunable);
      SplicedCount(e, conjunction, op, rhs, unprunable);
      HoistLast(init, e, conjunction);
      CountAppend(HoistOperands(init, conjunction), Spliced(e, conjunction), op, rhs, unprunable);
      CountAppend(init, [e], op, rhs, unprunable);
      CountOne(e, op, rhs, unprunable);
      assert init + [e] == es;
    }
  }

  lemma HoistAtoms(e: Expression, p: Predicate)
    requires AtomOf(p, Hoist(e))
    ensures AtomOf(p, e)
  {
    hide Hoist, AtomOf, EveryPredicate;
    AllAtoms(e, e);
    HoistShape(e, AtomsOf(e));
    AtomPasses(Hoist(e), AtomsOf(e), p);
  }

  lemma MergesHoist(e: Expression, unprunable: set<string>)
    ensures Merges(e, Hoist(e), unprunable)
  {
    hide Hoist, AtomOf, Count;
    forall p | AtomOf(p, Hoist(e))
      ensures AtomOf(p, e)
    {
      HoistAtoms(e, p);
    }
    forall op, rhs
      ensures Count(Hoist(e), op, rhs, unprunable) <= Count(e, op, rhs, unprunable)
    {
      HoistCount(e, op, rhs, unprunable);
    }
  }

  lemma {:induction false} RoundsMerge(e: Expression, unprunable: set<string>)
    ensures Merges(e, PruneRounds(e, unprunable), unprunable)
    decreases Size(e)
  {
    hide PruneOnce, Hoist, Merges, PrunedFrom;
    var p := PruneOnce(e, unprunable);
    var r := Hoist(p);
    MergesOnce(e, unprunable);
    MergesHoist(p, unprunable);
    MergesTransitive(e, p, r, unprunable);
    RoundSmaller(e, unprunable);
    if r != e {
      RoundsMerge(r, unprunable);
      MergesTransitive(e, r, PruneRounds(r, unprunable), unprunable);
    }
  }

  /** Every atom of a pruned expression is an old one, or the lookup in all strings of something
      that was looked up at least twice; and nothing is looked up more often than before. */
  lemma PrunedMerges(e: Expression, unprunable: set<string>)
    ensures Merges(e, Pruned(e, unprunable), unprunable)
  {
    hide PruneOnce, Merges, PruneRounds;
    var r := PruneOnce(e, unprunable);
    MergesOnce(e, unprunable);
    if r != e {
      RoundsMerge(r, unprunable);
      MergesTransitive(e, r, PruneRounds(r, unprunable), unprunable);
    }
  }

  // -- lookups of different connectives ---------------------------------------------------------------

  function Lookup(lhs: Operand, text: string): Expression {
    Atom(Predicate(lhs, Equal, Literal(Text(text))))
  }

  function InField(field: string, text: string): Expression { Lookup(FieldExtractor(field), text) }

  function InStrings(text: string): Expression { Lookup(TypeExtractor(StringType), text) }

  lemma AddFresh(r: seq<Expression>, e: Expression)
    requires e.Atom? && (forall j :: 0 <= j < |r| ==> !LooksUp(r[j], e.pred.op, e.pred.rhs, {}))
    ensures AddOperand(r, e, PruneOnce(e, {}), {}) == r + [e]
  {
    assert forall j :: 0 <= j < |r| ==> !SameLookup(r[j], e.pred, {});
  }

  lemma AddTwin(r: seq<Expression>, k: nat, e: Expression)
    requires e.Atom? && StringLookup(e.pred, {}) && k < |r| && LooksUp(r[k], e.pred.op, e.pred.rhs, {})
    requires forall j :: 0 <= j < k ==> !LooksUp(r[j], e.pred.op, e.pred.rhs, {})
    ensures AddOperand(r, e, PruneOnce(e, {}), {}) == r[k := Atom(AnyString(e.pred))]
  {
    assert SameLookup(r[k], e.pred, {});
    assert forall j :: 0 <= j < k ==> !SameLookup(r[j], e.pred, {});
    assert Twin(r, e.pred, {}) == k;
  }

  lemma FirstRound(a: Expression, d: Expression, c: Expression, c': Expression, s: Expression)
    requires a == InField("a", "x") && c == InField("c", "q") && c' == InField("d", "q") && s == InStrings("q")
    requires d.Disjunction? && NoTwins(d, {})
    ensures PruneOperands([a, d, c, c'], {}) == [a, d, s]
  {
    hide PruneOnce, PruneOperands, AddOperand, NoTwins;
    assert PruneOperands([], {}) == [] by { NoOperands(); }
    PruneLeaves(d, {});
    PruneOperandsLast([], a, {});
    AddFresh([], a);
    assert [] + [a] == [a];
    PruneOperandsLast([a], d, {});
    AddOther([a], d, d, {});
    assert [a] + [d] == [a, d];
    PruneOperandsLast([a, d], c, {});
    AddFresh([a, d], c);
    assert [a, d] + [c] == [a, d, c];
    PruneOperandsLast([a, d, c], c', {});
    AddTwin([a, d, c], 2, c');
    assert [a, d, c] + [c'] == [a, d, c, c'];
    assert [a, d, c][2 := s] == [a, d, s];
  }

  lemma NoOperands()
    ensures PruneOperands([], {}) == []
  {
  }

  lemma SecondRound(a: Expression, b: Expression, y: Expression, s: Expression, t: Expression)
    requires a == InField("a", "x") && b == InField("b", "x") && s == InStrings("q") && t == InStrings("x")
    requires y.Atom? && !StringLookup(y.pred, {})
    ensures PruneOperands([a, b, y, s], {}) == [t, y, s]
  {
    hide PruneOnce, PruneOperands, AddOperand;
    NoOperands();
    PruneOperandsLast([], a, {});
    AddFresh([], a);
    assert [] + [a] == [a];
    PruneOperandsLast([a], b, {});
    AddTwin([a], 0, b);
    assert [a] + [b] == [a, b] && [a][0 := t] == [t];
    PruneOperandsLast([a, b], y, {});
    PruneLeaves(y, {});
    AddOther([t], y, y, {});
    assert [a, b] + [y] == [a, b, y] && [t] + [y] == [t, y];
    PruneOperandsLast([a, b, y], s, {});
    AddFresh([t, y], s);
    assert [a, b, y] + [s] == [a, b, y, s] && [t, y] + [s] == [t, y, s];
  }

  lemma HoistedAtoms(a: Expression, b: Expression)
    requires a.Atom? && b.Atom?
    ensures HoistOperands([], false) == [] && Spliced(a, false) == [a]
    ensures HoistEach([a, b]) == [a, b]
  {
    assert [a, b][..1] == [a] && [a][..0] == [];
    assert HoistEach([]) == [];
    assert HoistEach([a]) == [a];
  }

  lemma HoistRound(a: Expression, b: Expression, y: Expression, s: Expression)
    requires a.Atom? && b.Atom? && y.Atom? && s.Atom?
    ensures Hoist(Disjunction([a, Disjunction([b, y]), s])) == Disjunction([a, b, y, s])
  {
    var d := Disjunction([b, y]);
    HoistedAtoms(a, s);
    HoistedAtoms(s, a);
    HoistedAtoms(b, y);
    assert Spliced(d, false) == [b, y];
    hide HoistOperands, Spliced, HoistEach;
    HoistLast([], a, false);
    HoistLast([a], d, false);
    HoistLast([a, d], s, false);
    assert [] + [a] == [a] && [a] + [d] == [a, d] && [a, d] + [s] == [a, d, s];
    assert [a] + [b, y] + [s] == [a, b, y, s];
  }

  lemma ThreeRounds(e: Expression, r0: Expression, r1: Expression, r2: Expression)
    requires PruneOnce(e, {}) == r0 != e && Hoist(PruneOnce(r0, {})) == r1 != r0
    requires Hoist(PruneOnce(r1, {})) == r2 != r1 && Hoist(PruneOnce(r2, {})) == r2
    ensures Pruned(e, {}) == r2
  {
    hide PruneOnce, Hoist;
    assert PruneRounds(r2, {}) == r2;
    assert PruneRounds(r1, {}) == r2;
    assert PruneRounds(r0, {}) == r2;
  }

  lemma NoTwinsThere(a: Expression, b: Expression, y: Expression, s: Expression, t: Expression)
    requires a == InField("a", "x") && b == InField("b", "x") && s == InStrings("q") && t == InStrings("x")
    requires y.Atom? && !StringLookup(y.pred, {})
    ensures NoTwins(Disjunction([b, y]), {}) && NoTwins(Disjunction([a, Disjunction([b, y]), s]), {})
    ensures NoTwins(Disjunction([t, y, s]), {}) && NoSingles(Disjunction([t, y, s])) && Flat(Disjunction([t, y, s]))
  {
    assert NoTwinOperands([b, y], {});
    assert NoTwins(Disjunction([b, y]), {});
    assert NoTwinOperands([a, Disjunction([b, y]), s], {});
    assert NoTwinOperands([t, y, s], {});
  }

  lemma NotInOne(a: Expression, b: Expression, y: Expression, c: Expression, c': Expression)
    requires a == InField("a", "x") && b == InField("b", "x") && c == InField("c", "q") && c' == InField("d", "q")
    requires y.Atom? && !StringLookup(y.pred, {})
    ensures !LookedUpTwice(Disjunction([a, Disjunction([b, y]), c, c']), Equal, Literal(Text("x")), {})
  {
    var rhs, d := Literal(Text("x")), Disjunction([b, y]);
    assert !LooksUp(c, Equal, rhs, {}) && !LooksUp(c', Equal, rhs, {}) && !LooksUp(y, Equal, rhs, {});
    assert !Pair([b, y], Equal, rhs, {});
    assert !LookedUpTwice(d, Equal, rhs, {});
    assert !Pair([a, d, c, c'], Equal, rhs, {});
  }

  /**
   * The two lookups need not be in one connective: hoisting after other lookups were merged
   * can bring them together.
   */
  lemma MergedAcross(y: Expression)
    requires y.Atom? && !StringLookup(y.pred, {})
    ensures var d := Disjunction([InField("b", "x"), y]);
            var e := Disjunction([InField("a", "x"), d, InField("c", "q"), InField("d", "q")]);
            && Pruned(e, {}) == Disjunction([InStrings("x"), y, InStrings("q")])
            && !LookedUpTwice(e, Equal, Literal(Text("x")), {})
  {
    hide PruneOperands, Hoist, NoTwins, NoSingles, Flat, LookedUpTwice, Pruned;
    var a, b, c, c' := InField("a", "x"), InField("b", "x"), InField("c", "q"), InField("d", "q");
    var s, t := InStrings("q"), InStrings("x");
    var d := Disjunction([b, y]);
    var e, r0 := Disjunction([a, d, c, c']), Disjunction([a, d, s]);
    var r1, r2 := Disjunction([a, b, y, s]), Disjunction([t, y, s]);
    NoTwinsThere(a, b, y, s, t);
    FirstRound(a, d, c, c', s);
    SecondRound(a, b, y, s, t);
    assert PruneOnce(e, {}) == r0 && PruneOnce(r1, {}) == r2;
    hide PruneOnce;
    PruneLeaves(r0, {});
    PruneLeaves(r2, {});
    HoistRound(a, b, y, s);
    HoistSame(r2);
    assert |e.ops| != |r0.ops| && |r0.ops| != |r1.ops| && |r1.ops| != |r2.ops|;
    ThreeRounds(e, r0, r1, r2);
    NotInOne(a, b, y, c, c');
  }
}
