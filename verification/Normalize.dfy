// Normalization of query expressions: hoisting, aligning, denegating and deduplicating.
module Normalizing {
  import opened Expressions

  // -- hoister ---------------------------------------------------------------------------

  function HoistEach(es: seq<Expression>): (r: seq<Expression>)
    ensures |r| == |es|
    decreases es
  {
    if es == [] then [] else HoistEach(es[..|es| - 1]) + [Hoist(es[|es| - 1])]
  }

  /** The operands of a connective, those of nested connectives of the same kind spliced in. */
  function HoistOperands(es: seq<Expression>, conjunction: bool): seq<Expression>
    decreases es
  {
    if es == [] then []
    else
      var e := es[|es| - 1];
      HoistOperands(es[..|es| - 1], conjunction)
      + (if conjunction && e.Conjunction? then HoistEach(e.ops)
         else if !conjunction && e.Disjunction? then HoistEach(e.ops)
         else [Hoist(e)])
  }

  function Unwrap(es: seq<Expression>, conjunction: bool): Expression {
    if |es| == 1 then es[0] else if conjunction then Conjunction(es) else Disjunction(es)
  }

  function Hoist(e: Expression): Expression
    decreases e
  {
    match e
    case Empty => Empty
    case Conjunction(ops) => Unwrap(HoistOperands(ops, true), true)
    case Disjunction(ops) => Unwrap(HoistOperands(ops, false), false)
    case Negation(x) => Negation(Hoist(x))
    case Atom(_) => e
  }

  method HoistExpression(e: Expression) returns (r: Expression)
    ensures r == Hoist(e)
    decreases e
  {
    match e
    case Empty => r := Empty;
    case Conjunction(ops) =>
      var hoisted := HoistConnective(ops, true);
      r := if |hoisted| == 1 then hoisted[0] else Conjunction(hoisted);
    case Disjunction(ops) =>
      var hoisted := HoistConnective(ops, false);
      r := if |hoisted| == 1 then hoisted[0] else Disjunction(hoisted);
    case Negation(x) =>
      var y := HoistExpression(x);
      r := Negation(y);
    case Atom(_) => r := e;
  }

  method HoistConnective(es: seq<Expression>, conjunction: bool) returns (hoisted: seq<Expression>)
    ensures hoisted == HoistOperands(es, conjunction)
    decreases es, 0
  {
    hoisted := [];
    for i := 0 to |es|
      invariant hoisted == HoistOperands(es[..i], conjunction)
    {
      assert es[..i + 1][..i] == es[..i];
      var e := es[i];
      if (conjunction && e.Conjunction?) || (!conjunction && e.Disjunction?) {
        var start := hoisted;
        for j := 0 to |e.ops|
          invariant hoisted == start + HoistEach(e.ops[..j])
        {
          assert e.ops[..j + 1][..j] == e.ops[..j];
          var y := HoistExpression(e.ops[j]);
          hoisted := hoisted + [y];
        }
        assert e.ops[..|e.ops|] == e.ops;
      } else {
        var y := HoistExpression(e);
        hoisted := hoisted + [y];
      }
    }
    assert es[..|es|] == es;
  }

  // -- aligner ----------------------------------------------------------------------------

  function Align(e: Expression): Expression {
    match e
    case Empty => Empty
    case Conjunction(ops) => Conjunction(seq(|ops|, k requires 0 <= k < |ops| => Align(ops[k])))
    case Disjunction(ops) => Disjunction(seq(|ops|, k requires 0 <= k < |ops| => Align(ops[k])))
    case Negation(x) => Negation(Align(x))
    case Atom(p) => Atom(AlignPredicate(p))
  }

  method AlignExpression(e: Expression) returns (r: Expression)
    ensures r == Align(e)
  {
    match e
    case Empty => r := Empty;
    case Conjunction(ops) =>
      var result := AlignAll(ops);
      r := Conjunction(result);
    case Disjunction(ops) =>
      var result := AlignAll(ops);
      r := Disjunction(result);
    case Negation(x) =>
      var y := AlignExpression(x);
      r := Negation(y);
    case Atom(p) => r := Atom(AlignPredicate(p));
  }

  method AlignAll(es: seq<Expression>) returns (r: seq<Expression>)
    ensures |r| == |es| && forall k :: 0 <= k < |es| ==> r[k] == Align(es[k])
    decreases es, 0
  {
    r := [];
    for k := 0 to |es|
      invariant |r| == k && forall j :: 0 <= j < k ==> r[j] == Align(es[j])
    {
      var x := AlignExpression(es[k]);
      r := r + [x];
    }
  }

  // -- denegator ----------------------------------------------------------------------------

  function Denegate(e: Expression, negate: bool): Expression {
    match e
    case Empty => Empty
    case Conjunction(ops) =>
      var es := seq(|ops|, k requires 0 <= k < |ops| => Denegate(ops[k], negate));
      if negate then Disjunction(es) else Conjunction(es)
    case Disjunction(ops) =>
      var es := seq(|ops|, k requires 0 <= k < |ops| => Denegate(ops[k], negate));
      if negate then Conjunction(es) else Disjunction(es)
    case Negation(x) =>
      if x.Negation? then Denegate(x.expr, negate) else Denegate(x, !negate)
    case Atom(p) => Atom(if negate then NegatePredicate(p) else p)
  }

  method DenegateExpression(e: Expression, negate: bool) returns (r: Expression)
    ensures r == Denegate(e, negate)
    decreases e
  {
    match e
    case Empty => r := Empty;
    case Conjunction(ops) =>
      var es := DenegateAll(ops, negate);
      r := if negate then Disjunction(es) else Conjunction(es);
    case Disjunction(ops) =>
      var es := DenegateAll(ops, negate);
      r := if negate then Conjunction(es) else Disjunction(es);
    case Negation(x) =>
      if x.Negation? {
        r := DenegateExpression(x.expr, negate);
      } else {
        r := DenegateExpression(x, !negate);
      }
    case Atom(p) => r := Atom(Predicate(p.lhs, if negate then Negate(p.op) else p.op, p.rhs));
  }

  method DenegateAll(es: seq<Expression>, negate: bool) returns (r: seq<Expression>)
    ensures |r| == |es| && forall k :: 0 <= k < |es| ==> r[k] == Denegate(es[k], negate)
    decreases es, 0
  {
    r := [];
    for k := 0 to |es|
      invariant |r| == k && forall j :: 0 <= j < k ==> r[j] == Denegate(es[j], negate)
    {
      var x := DenegateExpression(es[k], negate);
      r := r + [x];
    }
  }

  // -- deduplicator ---------------------------------------------------------------------------

  function DeduplicateOperands(es: seq<Expression>): seq<Expression>
    decreases es
  {
    if es == [] then []
    else
      var r := DeduplicateOperands(es[..|es| - 1]);
      var x := Deduplicate(es[|es| - 1]);
      if x in r then r else r + [x]
  }

  /** Drops repeated operands, and with them any negation sign. */
  function Deduplicate(e: Expression): Expression
    decreases e
  {
    match e
    case Empty => Empty
    case Conjunction(ops) => Conjunction(DeduplicateOperands(ops))
    case Disjunction(ops) => Disjunction(DeduplicateOperands(ops))
    case Negation(x) => Deduplicate(x)
    case Atom(_) => e
  }

  method DeduplicateExpression(e: Expression) returns (r: Expression)
    ensures r == Deduplicate(e)
    decreases e
  {
    match e
    case Empty => r := Empty;
    case Conjunction(ops) =>
      var result := DeduplicateAll(ops);
      r := Conjunction(result);
    case Disjunction(ops) =>
      var result := DeduplicateAll(ops);
      r := Disjunction(result);
    case Negation(x) => r := DeduplicateExpression(x);
    case Atom(_) => r := e;
  }

  method DeduplicateAll(es: seq<Expression>) returns (result: seq<Expression>)
    ensures result == DeduplicateOperands(es)
    decreases es, 0
  {
    result := [];
    for k := 0 to |es|
      invariant result == DeduplicateOperands(es[..k])
    {
      assert es[..k + 1][..k] == es[..k];
      var x := DeduplicateExpression(es[k]);
      if x !in result {
        result := result + [x];
      }
    }
    assert es[..|es|] == es;
  }

  // -- normalize ------------------------------------------------------------------------------

  function Normalize(e: Expression): Expression {
    Hoist(Deduplicate(Denegate(Align(Hoist(e)), false)))
  }

  method NormalizeExpression(e: Expression) returns (expr: Expression)
    ensures expr == Normalize(e)
  {
    expr := HoistExpression(e);
    expr := AlignExpression(expr);
    expr := DenegateExpression(expr, false);
    expr := DeduplicateExpression(expr);
    expr := HoistExpression(expr);
  }
}
