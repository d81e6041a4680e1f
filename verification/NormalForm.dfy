// What normalization does to the meaning and to the shape of an expression.
module NormalForms {
  import opened Expressions
  import opened Normalizing
  import opened Readings

  ghost predicate AllHold(es: seq<Expression>, i: Interpretation) {
    forall x | x in es :: Holds(x, i)
  }

  ghost predicate AnyHolds(es: seq<Expression>, i: Interpretation) {
    exists x | x in es :: Holds(x, i)
  }

  lemma HoldAppend(es: seq<Expression>, fs: seq<Expression>, i: Interpretation)
    ensures AllHold(es + fs, i) <==> AllHold(es, i) && AllHold(fs, i)
    ensures AnyHolds(es + fs, i) <==> AnyHolds(es, i) || AnyHolds(fs, i)
  {
    assert forall x :: x in es + fs <==> x in es || x in fs;
  }

  lemma HoldOne(e: Expression, i: Interpretation)
    ensures AllHold([e], i) == AnyHolds([e], i) == Holds(e, i)
  {
    assert e in [e];
  }

  /** Operands that hold one for one. */
  lemma HoldPointwise(es: seq<Expression>, fs: seq<Expression>, i: Interpretation, j: Interpretation)
    requires |es| == |fs| && forall k :: 0 <= k < |es| ==> Holds(es[k], i) == Holds(fs[k], j)
    ensures AllHold(es, i) == AllHold(fs, j) && AnyHolds(es, i) == AnyHolds(fs, j)
  {
    forall x | x in es
      ensures exists y :: y in fs && Holds(x, i) == Holds(y, j)
    {
      var k :| 0 <= k < |es| && es[k] == x;
      assert fs[k] in fs;
    }
    forall y | y in fs
      ensures exists x :: x in es && Holds(x, i) == Holds(y, j)
    {
      var k :| 0 <= k < |fs| && fs[k] == y;
      assert es[k] in es;
    }
  }

  // -- hoisting -------------------------------------------------------------------------------

  /** Hoisting keeps the meaning. */
  lemma HoistHolds(e: Expression, i: Interpretation)
    ensures Holds(Hoist(e), i) == Holds(e, i)
  {
    PlainReads(e, i, false);
    PlainReads(Hoist(e), i, false);
    HoistReads(e, Plain(i), false);
  }

  // -- tests for predicates ---------------------------------------------------------------------

  function AfterAligning(test: Predicate -> bool): Predicate -> bool { p => test(AlignPredicate(p)) }

  /** What normalization relies on for one predicate. */
  predicate Tame(i: Interpretation, p: Predicate) {
    Flips(i, p) && Complements(i, AlignPredicate(p))
  }

  function TameFor(i: Interpretation): Predicate -> bool { p => Tame(i, p) }

  // -- deduplicating --------------------------------------------------------------------------------

  /** Deduplicating keeps the meaning of what has no negations. */
  lemma {:induction false} DeduplicateHolds(e: Expression, i: Interpretation)
    requires NegationFree(e)
    ensures Holds(Deduplicate(e), i) == Holds(e, i)
    decreases e, 1
  {
    match e
    case Empty =>
    case Conjunction(ops) => DeduplicateOperandsHold(ops, i);
    case Disjunction(ops) => DeduplicateOperandsHold(ops, i);
    case Negation(_) =>
    case Atom(_) =>
  }

  lemma {:induction false} DeduplicateOperandsHold(es: seq<Expression>, i: Interpretation)
    requires forall x | x in es :: NegationFree(x)
    ensures AllHold(DeduplicateOperands(es), i) == AllHold(es, i)
    ensures AnyHolds(DeduplicateOperands(es), i) == AnyHolds(es, i)
    decreases es, 0
  {
    if es != [] {
      var init, last := es[..|es| - 1], es[|es| - 1];
      DeduplicateOperandsHold(init, i);
      DeduplicateHolds(last, i);
      HoldAppend(DeduplicateOperands(init), [Deduplicate(last)], i);
      HoldAppend(init, [last], i);
      HoldOne(Deduplicate(last), i);
      HoldOne(last, i);
      assert es == init + [last];
    }
  }

  // -- shapes -------------------------------------------------------------------------------------

  lemma {:induction false} HoistEachMember(es: seq<Expression>, x: Expression) returns (y: Expression)
    requires x in HoistEach(es)
    ensures y in es && x == Hoist(y)
  {
    var init, last := es[..|es| - 1], es[|es| - 1];
    if x in HoistEach(init) {
      y := HoistEachMember(init, x);
    } else {
      y := last;
    }
  }

  /** A hoisted operand comes from an operand, or from an operand of a spliced one. */
  lemma {:induction false} HoistMember(es: seq<Expression>, conjunction: bool, x: Expression)
    returns (e: Expression, y: Expression)
    requires x in HoistOperands(es, conjunction)
    ensures e in es && x == Hoist(y)
    ensures y == e || (conjunction && e.Conjunction? && y in e.ops) || (!conjunction && e.Disjunction? && y in e.ops)
  {
    var init, last := es[..|es| - 1], es[|es| - 1];
    if x in HoistOperands(init, conjunction) {
      e, y := HoistMember(init, conjunction, x);
    } else if (conjunction && last.Conjunction?) || (!conjunction && last.Disjunction?) {
      e := last;
      y := HoistEachMember(last.ops, x);
    } else {
      e, y := last, last;
    }
  }

  /** Hoisting introduces neither negations nor new predicates. */
  lemma {:induction false} HoistShape(e: Expression, test: Predicate -> bool)
    ensures NegationFree(e) ==> NegationFree(Hoist(e))
    ensures EveryPredicate(e, test) ==> EveryPredicate(Hoist(e), test)
    decreases e, 1
  {
    match e
    case Empty =>
    case Conjunction(ops) => HoistOperandsShape(ops, true, test);
    case Disjunction(ops) => HoistOperandsShape(ops, false, test);
    case Negation(x) => HoistShape(x, test);
    case Atom(_) =>
  }

  lemma {:induction false} HoistOperandsShape(es: seq<Expression>, conjunction: bool, test: Predicate -> bool)
    ensures var hs := HoistOperands(es, conjunction);
            && ((forall y | y in es :: NegationFree(y)) ==> forall x | x in hs :: NegationFree(x))
            && ((forall y | y in es :: EveryPredicate(y, test)) ==> forall x | x in hs :: EveryPredicate(x, test))
    decreases es, 0
  {
    forall x | x in HoistOperands(es, conjunction)
      ensures (forall y | y in es :: NegationFree(y)) ==> NegationFree(x)
      ensures (forall y | y in es :: EveryPredicate(y, test)) ==> EveryPredicate(x, test)
    {
      var e, y := HoistMember(es, conjunction, x);
      HoistShape(y, test);
    }
  }

  /** A connective has no operand or several: hoisting leaves none with exactly one. */
  lemma {:induction false} HoistSingles(e: Expression)
    ensures NoSingles(Hoist(e))
    decreases e, 1
  {
    match e
    case Empty =>
    case Conjunction(ops) => HoistOperandsSingles(ops, true);
    case Disjunction(ops) => HoistOperandsSingles(ops, false);
    case Negation(x) => HoistSingles(x);
    case Atom(_) =>
  }

  lemma {:induction false} HoistOperandsSingles(es: seq<Expression>, conjunction: bool)
    ensures forall x | x in HoistOperands(es, conjunction) :: NoSingles(x)
    decreases es, 0
  {
    forall x | x in HoistOperands(es, conjunction)
      ensures NoSingles(x)
    {
      var e, y := HoistMember(es, conjunction, x);
      HoistSingles(y);
    }
  }

  /** Aligning makes every predicate aligned and changes nothing else. */
  lemma {:induction false} AlignShape(e: Expression, test: Predicate -> bool)
    ensures Aligned(Align(e))
    ensures EveryPredicate(e, AfterAligning(test)) ==> EveryPredicate(Align(e), test)
    decreases e, 1
  {
    match e
    case Empty =>
    case Conjunction(ops) => AlignAllShape(ops, Align(e).ops, test);
    case Disjunction(ops) => AlignAllShape(ops, Align(e).ops, test);
    case Negation(x) => AlignShape(x, test);
    case Atom(p) => OperatorLaws(p.op);
  }

  lemma {:induction false} AlignAllShape(es: seq<Expression>, fs: seq<Expression>, test: Predicate -> bool)
    requires |es| == |fs| && forall k :: 0 <= k < |es| ==> fs[k] == Align(es[k])
    ensures forall x | x in fs :: Aligned(x)
    ensures (forall x | x in es :: EveryPredicate(x, AfterAligning(test))) ==>
              forall x | x in fs :: EveryPredicate(x, test)
    decreases es, 0
  {
    forall k | 0 <= k < |es|
      ensures Aligned(fs[k])
      ensures EveryPredicate(es[k], AfterAligning(test)) ==> EveryPredicate(fs[k], test)
    {
      AlignShape(es[k], test);
    }
  }

  /** Denegating leaves no negations and changes operators only. */
  lemma {:induction false} DenegateShape(e: Expression, negate: bool, test: Predicate -> bool)
    requires forall p: Predicate :: test(p) ==> test(NegatePredicate(p))
    ensures NegationFree(Denegate(e, negate))
    ensures EveryPredicate(e, test) ==> EveryPredicate(Denegate(e, negate), test)
    decreases e, 1
  {
    match e
    case Empty =>
    case Conjunction(ops) => DenegateAllShape(ops, Denegate(e, negate).ops, negate, test);
    case Disjunction(ops) => DenegateAllShape(ops, Denegate(e, negate).ops, negate, test);
    case Negation(x) =>
      assert EveryPredicate(e, test) == EveryPredicate(x, test);
      if x.Negation? {
        assert EveryPredicate(x, test) == EveryPredicate(x.expr, test);
        DenegateShape(x.expr, negate, test);
      } else {
        DenegateShape(x, !negate, test);
      }
    case Atom(_) =>
  }

  lemma {:induction false} DenegateAllShape(
    es: seq<Expression>, fs: seq<Expression>, negate: bool, test: Predicate -> bool)
    requires forall p: Predicate :: test(p) ==> test(NegatePredicate(p))
    requires |es| == |fs| && forall k :: 0 <= k < |es| ==> fs[k] == Denegate(es[k], negate)
    ensures forall x | x in fs :: NegationFree(x)
    ensures (forall x | x in es :: EveryPredicate(x, test)) ==> forall x | x in fs :: EveryPredicate(x, test)
    decreases es, 0
  {
    forall k | 0 <= k < |es|
      ensures NegationFree(fs[k])
      ensures EveryPredicate(es[k], test) ==> EveryPredicate(fs[k], test)
    {
      DenegateShape(es[k], negate, test);
    }
  }

  lemma {:induction false} DeduplicateMember(es: seq<Expression>, x: Expression) returns (y: Expression)
    requires x in DeduplicateOperands(es)
    ensures y in es && x == Deduplicate(y)
  {
    var init, last := es[..|es| - 1], es[|es| - 1];
    if x in DeduplicateOperands(init) {
      y := DeduplicateMember(init, x);
    } else {
      y := last;
    }
  }

  lemma {:induction false} DeduplicateShape(e: Expression, test: Predicate -> bool)
    ensures NegationFree(Deduplicate(e))
    ensures EveryPredicate(e, test) ==> EveryPredicate(Deduplicate(e), test)
    decreases e, 1
  {
    match e
    case Empty =>
    case Conjunction(ops) => DeduplicateOperandsShape(ops, test);
    case Disjunction(ops) => DeduplicateOperandsShape(ops, test);
    case Negation(x) => DeduplicateShape(x, test);
    case Atom(_) =>
  }

  lemma {:induction false} DeduplicateOperandsShape(es: seq<Expression>, test: Predicate -> bool)
    ensures forall x | x in DeduplicateOperands(es) :: NegationFree(x)
    ensures (forall x | x in es :: EveryPredicate(x, test)) ==>
              forall x | x in DeduplicateOperands(es) :: EveryPredicate(x, test)
    decreases es, 0
  {
    forall x | x in DeduplicateOperands(es)
      ensures NegationFree(x)
      ensures (forall y | y in es :: EveryPredicate(y, test)) ==> EveryPredicate(x, test)
    {
      var y := DeduplicateMember(es, x);
      DeduplicateShape(y, test);
    }
  }

  /** Deduplicating leaves no connective with an operand twice. */
  lemma {:induction false} DeduplicateDistinct(e: Expression)
    ensures DistinctOperands(Deduplicate(e))
    decreases e, 1
  {
    match e
    case Empty =>
    case Conjunction(ops) => DeduplicateOperandsDistinct(ops);
    case Disjunction(ops) => DeduplicateOperandsDistinct(ops);
    case Negation(x) => DeduplicateDistinct(x);
    case Atom(_) =>
  }

  lemma {:induction false} DeduplicateOperandsDistinct(es: seq<Expression>)
    ensures Distinct(DeduplicateOperands(es))
    ensures forall x | x in DeduplicateOperands(es) :: DistinctOperands(x)
    decreases es, 0
  {
    if es != [] {
      DeduplicateOperandsDistinct(es[..|es| - 1]);
      DeduplicateDistinct(es[|es| - 1]);
    }
  }

  // -- normalize ------------------------------------------------------------------------------------

  /** Any test that an aligned predicate passes together with its negation holds after normalization. */
  lemma NormalizePredicates(e: Expression, test: Predicate -> bool)
    requires forall p: Predicate :: test(p) ==> test(NegatePredicate(p))
    requires EveryPredicate(e, AfterAligning(test))
    ensures EveryPredicate(Normalize(e), test)
  {
    hide Hoist, Align, Denegate, Deduplicate, EveryPredicate;
    var h := Hoist(e);
    var a := Align(h);
    var d := Denegate(a, false);
    HoistShape(e, AfterAligning(test));
    AlignShape(h, test);
    DenegateShape(a, false, test);
    DeduplicateShape(d, test);
    HoistShape(Deduplicate(d), test);
  }

  /** A normalized expression has no negations, extractors on the left, and no connectives with
      a single operand. */
  lemma NormalizeShape(e: Expression)
    ensures NegationFree(Normalize(e)) && Aligned(Normalize(e)) && NoSingles(Normalize(e))
  {
    hide Hoist, Align, Denegate, Deduplicate, EveryPredicate, NoSingles, NegationFree;
    var h := Hoist(e);
    var a := Align(h);
    var d := Denegate(a, false);
    AlignShape(h, AlignedPredicate);
    DenegateShape(a, false, AlignedPredicate);
    DeduplicateShape(d, AlignedPredicate);
    HoistShape(Deduplicate(d), AlignedPredicate);
    HoistSingles(Deduplicate(d));
  }

  /**
   * What normalization does to the meaning of any expression under any interpretation: the
   * normal form holds exactly if the expression does when its atoms are aligned, its negated
   * atoms have the opposite operator and its negated nils do not hold.
   */
  lemma NormalizeReads(e: Expression, i: Interpretation)
    ensures Holds(Normalize(e), i) == Reads(e, Normal(i), false)
  {
    hide Hoist, Align, Denegate, Deduplicate, Holds, Reads, NegationFree;
    var h := Hoist(e);
    var d := Denegate(Align(h), false);
    HoistReads(e, Normal(i), false);
    DenegateReads(h, false, i);
    PlainReads(d, i, false);
    DenegateShape(Align(h), false, AlignedPredicate);
    DeduplicateHolds(d, i);
    HoistHolds(Deduplicate(d), i);
  }

  /** With predicates that can be flipped and negated, only the negated nils read differently. */
  lemma {:induction false} TameReads(e: Expression, i: Interpretation, odd: bool)
    requires EveryPredicate(e, TameFor(i))
    ensures Reads(e, Normal(i), odd) == Reads(e, NilsUnnegated(i), odd)
  {
    match e
    case Empty =>
    case Conjunction(ops) =>
      forall x | x in ops
        ensures Reads(x, Normal(i), odd) == Reads(x, NilsUnnegated(i), odd)
      {
        TameReads(x, i, odd);
      }
    case Disjunction(ops) =>
      forall x | x in ops
        ensures Reads(x, Normal(i), odd) == Reads(x, NilsUnnegated(i), odd)
      {
        TameReads(x, i, odd);
      }
    case Negation(x) => TameReads(x, i, !odd);
    case Atom(_) =>
  }

  /**
   * Normalization keeps the meaning of such an expression exactly if it does not matter
   * that its negated nils do not hold.
   */
  lemma NilsMatterExactly(e: Expression, i: Interpretation)
    requires EveryPredicate(e, TameFor(i))
    ensures Holds(Normalize(e), i) == Holds(e, i) <==> Reads(e, NilsUnnegated(i), false) == Holds(e, i)
  {
    hide Normalize, Holds, Reads, EveryPredicate;
    NormalizeReads(e, i);
    TameReads(e, i, false);
  }

  lemma {:induction false} NoNilsRead(e: Expression, i: Interpretation, odd: bool)
    requires NoNegatedNil(e, odd)
    ensures Reads(e, NilsUnnegated(i), odd) == Holds(e, i)
  {
    match e
    case Empty =>
    case Conjunction(ops) =>
      forall x | x in ops
        ensures Reads(x, NilsUnnegated(i), odd) == Holds(x, i)
      {
        NoNilsRead(x, i, odd);
      }
    case Disjunction(ops) =>
      forall x | x in ops
        ensures Reads(x, NilsUnnegated(i), odd) == Holds(x, i)
      {
        NoNilsRead(x, i, odd);
      }
    case Negation(x) => NoNilsRead(x, i, !odd);
    case Atom(_) =>
  }

  /** In particular it does so if there are none. */
  lemma NormalizeHolds(e: Expression, i: Interpretation)
    requires NoNegatedNil(e, false) && EveryPredicate(e, TameFor(i))
    ensures Holds(Normalize(e), i) == Holds(e, i)
  {
    hide Normalize, Holds, Reads, EveryPredicate, NoNegatedNil;
    NilsMatterExactly(e, i);
    NoNilsRead(e, i, false);
  }

  /** The predicate says the same with its extractor on the left, and never the same as its negation. */
  predicate Sound(i: Interpretation, p: Predicate) {
    Flips(i, p) && !(i(AlignPredicate(p)) && i(NegatePredicate(AlignPredicate(p))))
  }

  function SoundFor(i: Interpretation): Predicate -> bool { p => Sound(i, p) }

  /** Under such interpretations the normal reading is below the meaning, and above it if negated. */
  lemma {:induction false} SoundReads(e: Expression, i: Interpretation, odd: bool)
    requires EveryPredicate(e, SoundFor(i))
    ensures if odd then Holds(e, i) ==> Reads(e, Normal(i), odd) else Reads(e, Normal(i), odd) ==> Holds(e, i)
  {
    match e
    case Empty =>
    case Conjunction(ops) =>
      forall x | x in ops
        ensures if odd then Holds(x, i) ==> Reads(x, Normal(i), odd) else Reads(x, Normal(i), odd) ==> Holds(x, i)
      {
        SoundReads(x, i, odd);
      }
    case Disjunction(ops) =>
      forall x | x in ops
        ensures if odd then Holds(x, i) ==> Reads(x, Normal(i), odd) else Reads(x, Normal(i), odd) ==> Holds(x, i)
      {
        SoundReads(x, i, odd);
      }
    case Negation(x) => SoundReads(x, i, !odd);
    case Atom(_) =>
  }

  /** Normalization only ever loses: what satisfies the normal form satisfies the expression. */
  lemma NormalizeStrengthens(e: Expression, i: Interpretation)
    requires EveryPredicate(e, SoundFor(i))
    ensures Holds(Normalize(e), i) ==> Holds(e, i)
  {
    hide Normalize, Holds, Reads, EveryPredicate;
    NormalizeReads(e, i);
    SoundReads(e, i, false);
  }

  lemma {:induction false} EveryImplies(e: Expression, test: Predicate -> bool, test': Predicate -> bool)
    requires EveryPredicate(e, test) && forall p: Predicate :: test(p) ==> test'(p)
    ensures EveryPredicate(e, test')
  {
    match e
    case Empty =>
    case Conjunction(ops) =>
      forall x | x in ops
        ensures EveryPredicate(x, test')
      {
        EveryImplies(x, test, test');
      }
    case Disjunction(ops) =>
      forall x | x in ops
        ensures EveryPredicate(x, test')
      {
        EveryImplies(x, test, test');
      }
    case Negation(x) => EveryImplies(x, test, test');
    case Atom(_) =>
  }

  /** Normalization keeps the meaning of every expression over these predicates without a negated nil. */
  ghost predicate KeepsMeaning(i: Interpretation, test: Predicate -> bool) {
    forall e: Expression :: EveryPredicate(e, test) && NoNegatedNil(e, false) ==> Holds(Normalize(e), i) == Holds(e, i)
  }

  /**
   * Whatever the predicates, it does so exactly if each of them may be flipped to have its
   * extractor on the left, and negated then by negating its operator.
   */
  lemma MeaningKeptExactly(i: Interpretation, test: Predicate -> bool)
    ensures KeepsMeaning(i, test) <==> forall p: Predicate :: test(p) ==> Tame(i, p)
  {
    if forall p: Predicate :: test(p) ==> Tame(i, p) {
      forall e: Expression | EveryPredicate(e, test) && NoNegatedNil(e, false)
        ensures Holds(Normalize(e), i) == Holds(e, i)
      {
        EveryImplies(e, test, TameFor(i));
        NormalizeHolds(e, i);
      }
    }
    if KeepsMeaning(i, test) {
      forall p: Predicate | test(p)
        ensures Tame(i, p)
      {
        AtomKept(p, i, test);
      }
    }
  }

  lemma AtomKept(p: Predicate, i: Interpretation, test: Predicate -> bool)
    requires KeepsMeaning(i, test) && test(p)
    ensures Tame(i, p)
  {
    var e, f := Atom(p), Negation(Atom(p));
    assert NoNegatedNil(e, false) && NoNegatedNil(e, true) && NoNegatedNil(f, false);
    assert EveryPredicate(e, test) && EveryPredicate(f, test);
    NormalizeReads(e, i);
    NormalizeReads(f, i);
    assert Reads(f, Normal(i), false) == !Reads(e, Normal(i), true);
    assert Holds(f, i) == !Holds(e, i);
  }

  lemma NormalizeNegatedAtom(p: Predicate)
    requires AlignedPredicate(p)
    ensures Normalize(Negation(Atom(p))) == Atom(NegatePredicate(p))
  {
    var e := Negation(Atom(p));
    assert Hoist(e) == e;
    assert Align(e) == e;
    assert Denegate(e, false) == Denegate(Atom(p), true);
  }

  /** A negated nil is satisfied by everything, its normal form by nothing. */
  lemma NegatedNil(i: Interpretation)
    ensures Holds(Negation(Empty), i) && !Holds(Normalize(Negation(Empty)), i)
  {
    assert Hoist(Negation(Empty)) == Negation(Empty);
    assert Align(Negation(Empty)) == Negation(Empty);
    assert Denegate(Negation(Empty), false) == Empty;
  }

  /** A negated nil need not matter. */
  lemma HarmlessNegatedNil(i: Interpretation)
    ensures var e := Conjunction([Empty, Negation(Empty)]);
            !NoNegatedNil(e, false) && Holds(Normalize(e), i) == Holds(e, i)
  {
    var e := Conjunction([Empty, Negation(Empty)]);
    NormalizeReads(e, i);
    assert Empty in e.ops && Negation(Empty) in e.ops;
    assert !NoNegatedNil(Empty, true);
    assert !NoNegatedNil(Negation(Empty), false);
  }
}
