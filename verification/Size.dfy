// The number of nodes of an expression, and the passes that only ever shrink it.
module Sizes {
  import opened Expressions
  import opened Normalizing

  function Size(e: Expression): (n: nat)
    ensures n >= 1
    decreases e
  {
    match e
    case Empty => 1
    case Conjunction(ops) => 1 + SizeAll(ops)
    case Disjunction(ops) => 1 + SizeAll(ops)
    case Negation(x) => 1 + Size(x)
    case Atom(_) => 1
  }

  function SizeAll(es: seq<Expression>): nat
    decreases es
  {
    if es == [] then 0 else SizeAll(es[..|es| - 1]) + Size(es[|es| - 1])
  }

  lemma {:induction false} SizeAppend(es: seq<Expression>, fs: seq<Expression>)
    ensures SizeAll(es + fs) == SizeAll(es) + SizeAll(fs)
    decreases |fs|
  {
    if fs == [] {
      assert es + fs == es;
    } else {
      SizeAppend(es, fs[..|fs| - 1]);
      assert (es + fs)[..|es + fs| - 1] == es + fs[..|fs| - 1];
    }
  }

  lemma {:induction false} SizeUpdate(es: seq<Expression>, k: nat, e: Expression)
    requires k < |es| && Size(e) == Size(es[k])
    ensures SizeAll(es[k := e]) == SizeAll(es)
    decreases |es|
  {
    var last := |es| - 1;
    if k < last {
      SizeUpdate(es[..last], k, e);
      assert es[k := e][..last] == es[..last][k := e];
    } else {
      assert es[k := e][..last] == es[..last];
    }
  }

  /** Hoisting shrinks an expression or leaves it as it is. */
  lemma {:induction false} HoistSize(e: Expression)
    ensures Size(Hoist(e)) <= Size(e)
    ensures Size(Hoist(e)) == Size(e) ==> Hoist(e) == e
    decreases e, 1
  {
    match e
    case Empty =>
    case Conjunction(ops) =>
      HoistOperandsSize(ops, true);
      UnwrapSize(HoistOperands(ops, true), true);
    case Disjunction(ops) =>
      HoistOperandsSize(ops, false);
      UnwrapSize(HoistOperands(ops, false), false);
    case Negation(x) => HoistSize(x);
    case Atom(_) =>
  }

  lemma UnwrapSize(es: seq<Expression>, conjunction: bool)
    ensures Size(Unwrap(es, conjunction)) <= 1 + SizeAll(es)
    ensures Size(Unwrap(es, conjunction)) == 1 + SizeAll(es)
            ==> Unwrap(es, conjunction) == if conjunction then Conjunction(es) else Disjunction(es)
  {
    if |es| == 1 {
      assert SizeAll(es) == SizeAll(es[..0]) + Size(es[0]);
    }
  }

  lemma {:induction false} HoistOperandsSize(es: seq<Expression>, conjunction: bool)
    ensures SizeAll(HoistOperands(es, conjunction)) <= SizeAll(es)
    ensures SizeAll(HoistOperands(es, conjunction)) == SizeAll(es) ==> HoistOperands(es, conjunction) == es
    decreases es, 0
  {
    if es != [] {
      var init, e := es[..|es| - 1], es[|es| - 1];
      HoistOperandsSize(init, conjunction);
      var h := HoistOperands(init, conjunction);
      assert es == init + [e];
      if (conjunction && e.Conjunction?) || (!conjunction && e.Disjunction?) {
        HoistEachSize(e.ops);
        SizeAppend(h, HoistEach(e.ops));
      } else {
        HoistSize(e);
        SizeAppend(h, [Hoist(e)]);
        assert SizeAll([Hoist(e)]) == SizeAll([]) + Size(Hoist(e));
      }
    }
  }

  lemma {:induction false} HoistEachSize(es: seq<Expression>)
    ensures SizeAll(HoistEach(es)) <= SizeAll(es)
    decreases es, 0
  {
    if es != [] {
      HoistEachSize(es[..|es| - 1]);
      HoistSize(es[|es| - 1]);
    }
  }
}
