// Pruning of hoisted expressions: what it merges stood in one connective.
module HoistedPruning {
  import opened Expressions
  import opened Normalizing
  import opened Sizes
  import opened Pruning
  import opened PruneResults

  // -- one round leaves no twins -------------------------------------------------------------------

  lemma TwinReplaced(r: seq<Expression>, k: nat, e: Expression, unprunable: set<string>)
    requires NoTwinOperands(r, unprunable) && k < |r| && e.Atom?
    requires SameLookup(r[k], e.pred, unprunable)
    ensures NoTwinOperands(r[k := Atom(AnyString(e.pred))], unprunable)
  {
    var t := r[k := Atom(AnyString(e.pred))];
    forall i, j | 0 <= i < j < |t| && t[i].Atom? && StringLookup(t[i].pred, unprunable)
      ensures !LooksUp(t[j], t[i].pred.op, t[i].pred.rhs, unprunable)
    {
      assert !LooksUp(r[j], r[i].pred.op, r[i].pred.rhs, unprunable);
    }
  }

  lemma AddedNoTwins(r: seq<Expression>, e: Expression, unprunable: set<string>)
    requires NoTwinOperands(r, unprunable)
    ensures NoTwinOperands(AddOperand(r, e, PruneOnce(e, unprunable), unprunable), unprunable)
  {
    hide NoTwinOperands, Prunable;
    if PrunableAtom(e, unprunable) {
      var k := Twin(r, e.pred, unprunable);
      if k < |r| {
        TwinReplaced(r, k, e, unprunable);
      } else {
        TwinsLast(r, e, unprunable);
      }
    } else {
      TwinsLast(r, PruneOnce(e, unprunable), unprunable);
    }
  }

  lemma {:induction false} OperandsNoTwins(es: seq<Expression>, unprunable: set<string>)
    ensures NoTwinOperands(PruneOperands(es, unprunable), unprunable)
    ensures es != [] ==> PruneOperands(es, unprunable) != []
    decreases |es|
  {
    if es == [] {
    } else {
      var init, e := es[..|es| - 1], es[|es| - 1];
      assert init + [e] == es;
      OperandsNoTwins(init, unprunable);
      hide PruneOperands, NoTwinOperands;
      PruneOperandsLast(init, e, unprunable);
      AddedNoTwins(PruneOperands(init, unprunable), e, unprunable);
    }
  }

  lemma {:induction false} OnceNoTwins(e: Expression, unprunable: set<string>)
    ensures NoTwins(PruneOnce(e, unprunable), unprunable)
  {
    match e
    case Empty =>
    case Conjunction(ops) => OperandsWithoutTwins(ops, unprunable);
    case Disjunction(ops) => OperandsWithoutTwins(ops, unprunable);
    case Negation(x) => OnceNoTwins(x, unprunable);
    case Atom(_) =>
  }

  lemma {:induction false} OperandsWithoutTwins(es: seq<Expression>, unprunable: set<string>)
    ensures NoTwinOperands(PruneOperands(es, unprunable), unprunable)
    ensures forall x | x in PruneOperands(es, unprunable) :: NoTwins(x, unprunable)
    decreases es, 0
  {
    hide PruneOperands, PruneOnce, NoTwinOperands, AnyLooksUp, Pair, Prunable;
    OperandsNoTwins(es, unprunable);
    OperandsFrom(es, unprunable);
    forall x | x in PruneOperands(es, unprunable)
      ensures NoTwins(x, unprunable)
    {
      if k :| 0 <= k < |es| && x == PruneOnce(es[k], unprunable) {
        OnceNoTwins(es[k], unprunable);
      }
    }
  }

  // -- one round on a hoisted expression -------------------------------------------------------------

  /** A hoisted expression has no connective with one operand, or with an operand of its kind. */
  predicate Hoisted(e: Expression) {
    NoSingles(e) && Flat(e)
  }

  /** If several operands are pruned to one, they all looked up the same. */
  lemma PrunedToOne(es: seq<Expression>, unprunable: set<string>)
    requires |es| > 1 && |PruneOperands(es, unprunable)| == 1
    ensures var x := PruneOperands(es, unprunable)[0]; x.Atom? && Pair(es, x.pred.op, x.pred.rhs, unprunable)
  {
    hide PruneOnce, PruneOperands, Pair, AnyLooksUp, LooksUp, Prunable;
    var init, e := es[..|es| - 1], es[|es| - 1];
    assert init + [e] == es;
    PruneOperandsLast(init, e, unprunable);
    OperandsNoTwins(init, unprunable);
    OperandsFrom(init, unprunable);
    var r := PruneOperands(init, unprunable);
    assert Twin(r, e.pred, unprunable) == 0;
    assert r[0] in r;
    LookedUpBefore(init, r[0], unprunable);
    PrunableLookup(e, e.pred, unprunable);
    StillLooksUp(init, e, e.pred.op, e.pred.rhs, unprunable);
  }

  /** A round keeps an expression hoisted and of its kind, unless it leaves a single lookup of what
      was looked up twice, and it brings no lookups together but those. */
  ghost predicate Rounded(e: Expression, r: Expression, unprunable: set<string>) {
    && Hoisted(r)
    && (r.Conjunction? ==> e.Conjunction?)
    && (r.Disjunction? ==> e.Disjunction?)
    && (r.Atom? && !e.Atom? ==> LookedUpTwice(e, r.pred.op, r.pred.rhs, unprunable))
    && forall op, rhs :: LookedUpTwice(r, op, rhs, unprunable) ==> LookedUpTwice(e, op, rhs, unprunable)
  }

  lemma {:induction false} HoistEachAt(es: seq<Expression>, k: nat)
    requires k < |es|
    ensures HoistEach(es)[k] == Hoist(es[k])
    decreases |es|
  {
    if k < |es| - 1 {
      hide Hoist;
      HoistEachAt(es[..|es| - 1], k);
    }
  }

  lemma {:induction false} NothingSpliced(es: seq<Expression>, conjunction: bool)
    requires forall x | x in es :: if conjunction then !x.Conjunction? else !x.Disjunction?
    ensures HoistOperands(es, conjunction) == HoistEach(es)
    decreases |es|
  {
    if es == [] {
    } else {
      hide Hoist;
      assert es[|es| - 1] in es;
      NothingSpliced(es[..|es| - 1], conjunction);
    }
  }

  lemma SameKind(e: Expression, unprunable: set<string>)
    ensures var r := PruneOnce(e, unprunable);
            && (r.Conjunction? <==> e.Conjunction?) && (r.Disjunction? <==> e.Disjunction?)
            && (r.Atom? <==> e.Atom?)
  {
  }

  /** An operand after a round: that of an operand, or a merger. */
  ghost predicate OperandRounded(es: seq<Expression>, p: Expression, h: Expression, unprunable: set<string>) {
    || (exists k :: 0 <= k < |es| && p == PruneOnce(es[k], unprunable) && Rounded(es[k], h, unprunable))
    || (p.Atom? && h == p)
  }

  lemma OperandRound(es: seq<Expression>, p: Expression, unprunable: set<string>)
    requires FromOperands(es, p, unprunable)
    requires forall x | x in es :: Rounded(x, Hoist(PruneOnce(x, unprunable)), unprunable)
    ensures OperandRounded(es, p, Hoist(p), unprunable)
  {
    hide PruneOnce, Rounded, Pair, AnyLooksUp, Prunable;
    if k :| 0 <= k < |es| && p == PruneOnce(es[k], unprunable) {
      assert es[k] in es;
    }
  }

  ghost predicate OfKind(e: Expression, es: seq<Expression>, conjunction: bool) {
    e == if conjunction then Conjunction(es) else Disjunction(es)
  }

  /** Two operands that look up the same after a round did so before, or one is what is left of an
      operand that looked it up twice. */
  lemma PairBefore(es: seq<Expression>, ps: seq<Expression>, hs: seq<Expression>, op: RelationalOperator, rhs: Operand,
                   unprunable: set<string>)
    requires |hs| == |ps| && NoTwinOperands(ps, unprunable) && Pair(hs, op, rhs, unprunable)
    requires forall j :: 0 <= j < |ps| ==> hs[j] == Hoist(ps[j]) && OperandRounded(es, ps[j], hs[j], unprunable)
    ensures exists x :: x in es && LookedUpTwice(x, op, rhs, unprunable)
  {
    hide PruneOnce, LookedUpTwice, Hoisted, StringLookup;
    var i, j :| 0 <= i < j < |hs| && LooksUp(hs[i], op, rhs, unprunable) && LooksUp(hs[j], op, rhs, unprunable);
    var l := if ps[i].Atom? then j else i;
    assert !ps[l].Atom?;
    hide Hoist;
    var k :| 0 <= k < |es| && ps[l] == PruneOnce(es[k], unprunable) && Rounded(es[k], hs[l], unprunable);
    SameKind(es[k], unprunable);
    assert es[k] in es;
  }

  lemma TwiceInside(e: Expression, es: seq<Expression>, conjunction: bool, op: RelationalOperator, rhs: Operand,
                    unprunable: set<string>)
    requires OfKind(e, es, conjunction)
    ensures LookedUpTwice(e, op, rhs, unprunable) <==>
              Pair(es, op, rhs, unprunable) || exists x :: x in es && LookedUpTwice(x, op, rhs, unprunable)
  {
    hide Pair, LooksUp;
  }

  lemma ConnectiveRound(e: Expression, es: seq<Expression>, conjunction: bool, unprunable: set<string>)
    requires OfKind(e, es, conjunction) && Hoisted(e)
    requires forall x | x in es :: Rounded(x, Hoist(PruneOnce(x, unprunable)), unprunable)
    ensures Rounded(e, Unwrap(HoistOperands(PruneOperands(es, unprunable), conjunction), conjunction), unprunable)
  {
    var ps := PruneOperands(es, unprunable);
    hide PruneOnce, PruneOperands, Hoist, HoistOperands, HoistEach;
    hide Pair, AnyLooksUp, Prunable, LookedUpTwice, NoTwinOperands;
    OperandsNoTwins(es, unprunable);
    OperandsFrom(es, unprunable);
    forall p | p in ps
      ensures if conjunction then !p.Conjunction? else !p.Disjunction?
    {
      assert FromOperands(es, p, unprunable);
      if k :| 0 <= k < |es| && p == PruneOnce(es[k], unprunable) {
        SameKind(es[k], unprunable);
        assert es[k] in es;
      }
    }
    NothingSpliced(ps, conjunction);
    var hs := HoistEach(ps);
    forall j | 0 <= j < |ps|
      ensures hs[j] == Hoist(ps[j]) && OperandRounded(es, ps[j], hs[j], unprunable)
    {
      HoistEachAt(ps, j);
      assert ps[j] in ps;
      OperandRound(es, ps[j], unprunable);
    }
    OperandsRounded(e, es, ps, hs, conjunction, unprunable);
  }

  lemma OperandsRounded(e: Expression, es: seq<Expression>, ps: seq<Expression>, hs: seq<Expression>, conjunction: bool,
                        unprunable: set<string>)
    requires OfKind(e, es, conjunction) && Hoisted(e)
    requires ps == PruneOperands(es, unprunable) && NoTwinOperands(ps, unprunable)
    requires |hs| == |ps|
    requires forall j :: 0 <= j < |ps| ==> hs[j] == Hoist(ps[j]) && OperandRounded(es, ps[j], hs[j], unprunable)
    ensures Rounded(e, Unwrap(hs, conjunction), unprunable)
  {
    hide PruneOnce, PruneOperands, Hoist, Pair, LookedUpTwice, NoTwinOperands;
    if |hs| == 1 {
      OnlyOne(e, es, ps, hs, conjunction, unprunable);
    } else {
      var r := Unwrap(hs, conjunction);
      assert OfKind(r, hs, conjunction);
      forall h | h in hs
        ensures Hoisted(h) && if conjunction then !h.Conjunction? else !h.Disjunction?
      {
        var j :| 0 <= j < |hs| && hs[j] == h;
        KindKept(e, es, ps[j], h, conjunction, unprunable);
      }
      forall op, rhs | LookedUpTwice(r, op, rhs, unprunable)
        ensures LookedUpTwice(e, op, rhs, unprunable)
      {
        TwiceBefore(e, es, ps, hs, r, conjunction, op, rhs, unprunable);
      }
    }
  }

  lemma OnlyOne(e: Expression, es: seq<Expression>, ps: seq<Expression>, hs: seq<Expression>, conjunction: bool,
                unprunable: set<string>)
    requires OfKind(e, es, conjunction) && Hoisted(e) && ps == PruneOperands(es, unprunable)
    requires |hs| == |ps| == 1 && hs[0] == Hoist(ps[0])
    ensures Rounded(e, hs[0], unprunable)
  {
    hide PruneOnce, Pair;
    assert |es| > 1;
    PrunedToOne(es, unprunable);
    TwiceInside(e, es, conjunction, ps[0].pred.op, ps[0].pred.rhs, unprunable);
  }

  lemma KindKept(e: Expression, es: seq<Expression>, p: Expression, h: Expression, conjunction: bool,
                 unprunable: set<string>)
    requires OfKind(e, es, conjunction) && Hoisted(e) && OperandRounded(es, p, h, unprunable)
    ensures Hoisted(h) && if conjunction then !h.Conjunction? else !h.Disjunction?
  {
    hide PruneOnce, LookedUpTwice;
    if k :| 0 <= k < |es| && p == PruneOnce(es[k], unprunable) && Rounded(es[k], h, unprunable) {
      assert es[k] in es;
    }
  }

  lemma NotInAtom(e: Expression, op: RelationalOperator, rhs: Operand, unprunable: set<string>)
    requires LookedUpTwice(e, op, rhs, unprunable)
    ensures !e.Atom?
  {
  }

  lemma TwiceBefore(e: Expression, es: seq<Expression>, ps: seq<Expression>, hs: seq<Expression>, r: Expression,
                    conjunction: bool, op: RelationalOperator, rhs: Operand, unprunable: set<string>)
    requires OfKind(e, es, conjunction) && OfKind(r, hs, conjunction)
    requires |hs| == |ps| && NoTwinOperands(ps, unprunable)
    requires forall j :: 0 <= j < |ps| ==> hs[j] == Hoist(ps[j]) && OperandRounded(es, ps[j], hs[j], unprunable)
    requires LookedUpTwice(r, op, rhs, unprunable)
    ensures LookedUpTwice(e, op, rhs, unprunable)
  {
    hide PruneOnce, Hoist, Pair, NoTwinOperands, Hoisted, LookedUpTwice;
    TwiceInside(e, es, conjunction, op, rhs, unprunable);
    TwiceInside(r, hs, conjunction, op, rhs, unprunable);
    if Pair(hs, op, rhs, unprunable) {
      PairBefore(es, ps, hs, op, rhs, unprunable);
    } else {
      var h :| h in hs && LookedUpTwice(h, op, rhs, unprunable);
      var j :| 0 <= j < |hs| && hs[j] == h;
      assert !h.Atom? by { NotInAtom(h, op, rhs, unprunable); }
      var k :| 0 <= k < |es| && ps[j] == PruneOnce(es[k], unprunable) && Rounded(es[k], hs[j], unprunable);
      assert es[k] in es;
    }
  }

  lemma {:induction false} HoistedRound(e: Expression, unprunable: set<string>)
    requires Hoisted(e)
    ensures Rounded(e, Hoist(PruneOnce(e, unprunable)), unprunable)
  {
    match e
    case Empty =>
    case Conjunction(ops) =>
      forall x | x in ops
        ensures Rounded(x, Hoist(PruneOnce(x, unprunable)), unprunable)
      {
        HoistedRound(x, unprunable);
      }
      ConnectiveRound(e, ops, true, unprunable);
    case Disjunction(ops) =>
      forall x | x in ops
        ensures Rounded(x, Hoist(PruneOnce(x, unprunable)), unprunable)
      {
        HoistedRound(x, unprunable);
      }
      ConnectiveRound(e, ops, false, unprunable);
    case Negation(x) => HoistedRound(x, unprunable);
    case Atom(_) =>
  }

  // -- all rounds ---------------------------------------------------------------------------------

  /** Every atom is an old one, or looks up in all strings what one connective looked up twice. */
  ghost predicate MergesTwins(e: Expression, r: Expression, unprunable: set<string>) {
    forall p :: AtomOf(p, r) ==>
      AtomOf(p, e) || (p.lhs == TypeExtractor(StringType) && LookedUpTwice(e, p.op, p.rhs, unprunable))
  }

  lemma RoundMergesTwins(e: Expression, f: Expression, unprunable: set<string>)
    requires MergesTwins(e, f, unprunable)
    requires forall op, rhs :: LookedUpTwice(f, op, rhs, unprunable) ==> LookedUpTwice(e, op, rhs, unprunable)
    ensures MergesTwins(e, Hoist(PruneOnce(f, unprunable)), unprunable)
  {
    hide Hoist, PruneOnce, AtomOf, LookedUpTwice;
    var r := PruneOnce(f, unprunable);
    forall p | AtomOf(p, Hoist(r))
      ensures AtomOf(p, e) || (p.lhs == TypeExtractor(StringType) && LookedUpTwice(e, p.op, p.rhs, unprunable))
    {
      HoistAtoms(r, p);
      OnceMerges(f, unprunable, p);
    }
  }

  lemma {:induction false} RoundsMergeTwins(e: Expression, f: Expression, unprunable: set<string>)
    requires Hoisted(f) && MergesTwins(e, f, unprunable)
    requires forall op, rhs :: LookedUpTwice(f, op, rhs, unprunable) ==> LookedUpTwice(e, op, rhs, unprunable)
    ensures MergesTwins(e, PruneRounds(f, unprunable), unprunable)
    decreases Size(f)
  {
    hide Hoist, PruneOnce, LookedUpTwice, MergesTwins, Hoisted, PrunedFrom;
    HoistedRound(f, unprunable);
    RoundMergesTwins(e, f, unprunable);
    RoundSmaller(f, unprunable);
    var r := Hoist(PruneOnce(f, unprunable));
    if r != f {
      RoundsMergeTwins(e, r, unprunable);
    }
  }

  /** In a hoisted expression, pruning merges only what one connective looks up twice. */
  lemma MergedInOne(e: Expression, unprunable: set<string>)
    requires Hoisted(e)
    ensures MergesTwins(e, Pruned(e, unprunable), unprunable)
  {
    hide Hoist, PruneOnce, LookedUpTwice, Hoisted, PrunedFrom, NoTwins, AtomOf;
    var r := PruneOnce(e, unprunable);
    if r != e {
      OnceNoTwins(e, unprunable);
      PruneLeaves(r, unprunable);
      HoistedRound(e, unprunable);
      RoundMergesTwins(e, e, unprunable);
      if Hoist(r) != r {
        RoundsMergeTwins(e, Hoist(r), unprunable);
      }
    }
  }
}
