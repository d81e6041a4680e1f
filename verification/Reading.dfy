// Readings of an expression that may treat atoms and nils differently under negations, and the
// reading that normalization gives to an expression.
module Readings {
  import opened Expressions
  import opened Normalizing

  /** What atoms and nils stand for, depending on whether an odd number of negations surrounds them. */
  datatype Reader = Reader(atom: (Predicate, bool) -> bool, nil: bool -> bool)

  predicate Reads(e: Expression, r: Reader, odd: bool) {
    match e
    case Empty => r.nil(odd)
    case Conjunction(ops) => forall x | x in ops :: Reads(x, r, odd)
    case Disjunction(ops) => exists x | x in ops :: Reads(x, r, odd)
    case Negation(x) => !Reads(x, r, !odd)
    case Atom(p) => r.atom(p, odd)
  }

  /** The meaning of an expression. */
  function Plain(i: Interpretation): Reader {
    Reader((p: Predicate, odd: bool) => i(p), (odd: bool) => false)
  }

  /** A nil under an odd number of negations counts as true, so the negated nil never holds. */
  function NilsUnnegated(i: Interpretation): Reader {
    Reader((p: Predicate, odd: bool) => i(p), (odd: bool) => odd)
  }

  /** Atoms have their extractor on the left, and a negated atom means the opposite operator. */
  function Normal(i: Interpretation): Reader {
    Reader((p: Predicate, odd: bool) => if odd then !i(NegatePredicate(AlignPredicate(p))) else i(AlignPredicate(p)),
           (odd: bool) => odd)
  }

  ghost predicate AllRead(es: seq<Expression>, r: Reader, odd: bool) {
    forall x | x in es :: Reads(x, r, odd)
  }

  ghost predicate AnyReads(es: seq<Expression>, r: Reader, odd: bool) {
    exists x | x in es :: Reads(x, r, odd)
  }

  lemma ReadAppend(es: seq<Expression>, fs: seq<Expression>, r: Reader, odd: bool)
    ensures AllRead(es + fs, r, odd) <==> AllRead(es, r, odd) && AllRead(fs, r, odd)
    ensures AnyReads(es + fs, r, odd) <==> AnyReads(es, r, odd) || AnyReads(fs, r, odd)
  {
    assert forall x :: x in es + fs <==> x in es || x in fs;
  }

  lemma ReadOne(e: Expression, r: Reader, odd: bool)
    ensures AllRead([e], r, odd) == AnyReads([e], r, odd) == Reads(e, r, odd)
  {
    assert e in [e];
  }

  /** Operands that read one for one, or one for one in the opposite way. */
  lemma ReadPointwise(es: seq<Expression>, r: Reader, odd: bool, fs: seq<Expression>, t: Reader, even: bool, same: bool)
    requires |es| == |fs| && forall k :: 0 <= k < |es| ==> (Reads(es[k], r, odd) == Reads(fs[k], t, even)) == same
    ensures same ==> AllRead(es, r, odd) == AllRead(fs, t, even) && AnyReads(es, r, odd) == AnyReads(fs, t, even)
    ensures !same ==> AllRead(es, r, odd) == !AnyReads(fs, t, even) && AnyReads(es, r, odd) == !AllRead(fs, t, even)
  {
    forall x | x in es
      ensures exists y :: y in fs && (Reads(x, r, odd) == Reads(y, t, even)) == same
    {
      var k :| 0 <= k < |es| && es[k] == x;
      assert fs[k] in fs;
    }
    forall y | y in fs
      ensures exists x :: x in es && (Reads(x, r, odd) == Reads(y, t, even)) == same
    {
      var k :| 0 <= k < |fs| && fs[k] == y;
      assert es[k] in es;
    }
  }

  lemma {:induction false} PlainReads(e: Expression, i: Interpretation, odd: bool)
    ensures Reads(e, Plain(i), odd) == Holds(e, i)
  {
    match e
    case Empty =>
    case Conjunction(ops) =>
      forall x | x in ops
        ensures Reads(x, Plain(i), odd) == Holds(x, i)
      {
        PlainReads(x, i, odd);
      }
    case Disjunction(ops) =>
      forall x | x in ops
        ensures Reads(x, Plain(i), odd) == Holds(x, i)
      {
        PlainReads(x, i, odd);
      }
    case Negation(x) => PlainReads(x, i, !odd);
    case Atom(_) =>
  }

  // -- hoisting ---------------------------------------------------------------------------------

  lemma {:induction false} HoistEachReads(es: seq<Expression>, r: Reader, odd: bool)
    ensures AllRead(HoistEach(es), r, odd) == AllRead(es, r, odd)
    ensures AnyReads(HoistEach(es), r, odd) == AnyReads(es, r, odd)
    decreases es, 0
  {
    hide AllRead, AnyReads, Reads;
    if es != [] {
      var init, last := es[..|es| - 1], es[|es| - 1];
      HoistEachReads(init, r, odd);
      HoistReads(last, r, odd);
      ReadAppend(HoistEach(init), [Hoist(last)], r, odd);
      ReadAppend(init, [last], r, odd);
      ReadOne(Hoist(last), r, odd);
      ReadOne(last, r, odd);
      assert es == init + [last];
    }
  }

  /** Operands, spliced if they are connectives of the same kind. */
  function Spliced(e: Expression, conjunction: bool): seq<Expression> {
    if conjunction && e.Conjunction? then HoistEach(e.ops)
    else if !conjunction && e.Disjunction? then HoistEach(e.ops)
    else [Hoist(e)]
  }

  lemma {:induction false} SplicedReads(e: Expression, conjunction: bool, r: Reader, odd: bool)
    ensures if conjunction then AllRead(Spliced(e, true), r, odd) == Reads(e, r, odd)
            else AnyReads(Spliced(e, false), r, odd) == Reads(e, r, odd)
    decreases e, 2
  {
    if (conjunction && e.Conjunction?) || (!conjunction && e.Disjunction?) {
      HoistEachReads(e.ops, r, odd);
    } else {
      HoistReads(e, r, odd);
      ReadOne(Hoist(e), r, odd);
    }
  }

  lemma {:induction false} HoistOperandsRead(es: seq<Expression>, conjunction: bool, r: Reader, odd: bool)
    ensures if conjunction then AllRead(HoistOperands(es, true), r, odd) == AllRead(es, r, odd)
            else AnyReads(HoistOperands(es, false), r, odd) == AnyReads(es, r, odd)
    decreases es, 0
  {
    if es != [] {
      var init, last := es[..|es| - 1], es[|es| - 1];
      assert es == init + [last];
      assert HoistOperands(es, conjunction) == HoistOperands(init, conjunction) + Spliced(last, conjunction);
      hide AllRead, AnyReads, Reads, HoistOperands, Spliced;
      HoistOperandsRead(init, conjunction, r, odd);
      ReadAppend(HoistOperands(init, conjunction), Spliced(last, conjunction), r, odd);
      ReadAppend(init, [last], r, odd);
      ReadOne(last, r, odd);
      SplicedReads(last, conjunction, r, odd);
    }
  }

  /** Hoisting keeps every reading. */
  lemma {:induction false} HoistReads(e: Expression, r: Reader, odd: bool)
    ensures Reads(Hoist(e), r, odd) == Reads(e, r, odd)
    decreases e, 1
  {
    match e
    case Empty =>
    case Conjunction(ops) =>
      HoistOperandsRead(ops, true, r, odd);
      UnwrapReads(HoistOperands(ops, true), true, r, odd);
    case Disjunction(ops) =>
      HoistOperandsRead(ops, false, r, odd);
      UnwrapReads(HoistOperands(ops, false), false, r, odd);
    case Negation(x) => HoistReads(x, r, !odd);
    case Atom(_) =>
  }

  lemma UnwrapReads(es: seq<Expression>, conjunction: bool, r: Reader, odd: bool)
    ensures Reads(Unwrap(es, conjunction), r, odd) == if conjunction then AllRead(es, r, odd) else AnyReads(es, r, odd)
  {
    if |es| == 1 {
      assert es == [es[0]];
      ReadOne(es[0], r, odd);
    }
  }

  // -- aligning and denegating ------------------------------------------------------------------

  /** Pushing negations into the operators of aligned atoms makes the normal reading plain. */
  lemma {:induction false} DenegateReads(e: Expression, odd: bool, i: Interpretation)
    ensures Reads(Denegate(Align(e), odd), Plain(i), false) == (Reads(e, Normal(i), odd) != odd)
    decreases e, 1
  {
    match e
    case Empty =>
    case Conjunction(ops) =>
      DenegateAllRead(ops, Align(e).ops, odd, i);
      var fs := Denegate(Align(e), odd).ops;
      ReadPointwise(fs, Plain(i), false, ops, Normal(i), odd, !odd);
    case Disjunction(ops) =>
      DenegateAllRead(ops, Align(e).ops, odd, i);
      var fs := Denegate(Align(e), odd).ops;
      ReadPointwise(fs, Plain(i), false, ops, Normal(i), odd, !odd);
    case Negation(x) =>
      if x.Negation? {
        DenegateReads(x.expr, odd, i);
      } else {
        DenegateReads(x, !odd, i);
      }
    case Atom(_) =>
  }

  lemma {:induction false} DenegateAllRead(es: seq<Expression>, fs: seq<Expression>, odd: bool, i: Interpretation)
    requires |es| == |fs| && forall k :: 0 <= k < |es| ==> fs[k] == Align(es[k])
    ensures forall k :: 0 <= k < |es| ==>
              Reads(Denegate(fs[k], odd), Plain(i), false) == (Reads(es[k], Normal(i), odd) != odd)
    decreases es, 0
  {
    forall k | 0 <= k < |es|
      ensures Reads(Denegate(fs[k], odd), Plain(i), false) == (Reads(es[k], Normal(i), odd) != odd)
    {
      DenegateReads(es[k], odd, i);
    }
  }
}
