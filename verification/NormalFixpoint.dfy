// Which expressions normalization leaves as they are, and what it may leave to do.
module NormalFixpoints {
  import opened Expressions
  import opened Normalizing
  import opened NormalForms
  import opened Sizes

  /** No negations, extractors on the left, connectives that have no operand or several, all
      different and none a connective of the same kind. */
  ghost predicate IsNormal(e: Expression) {
    NegationFree(e) && Aligned(e) && NoSingles(e) && Flat(e) && DistinctOperands(e)
  }

  // -- expressions that the passes leave alone ----------------------------------------------------

  lemma {:induction false} HoistSame(e: Expression)
    requires NoSingles(e) && Flat(e)
    ensures Hoist(e) == e
    decreases e, 1
  {
    match e
    case Empty =>
    case Conjunction(ops) => HoistOperandsSame(ops, true);
    case Disjunction(ops) => HoistOperandsSame(ops, false);
    case Negation(x) => HoistSame(x);
    case Atom(_) =>
  }

  lemma {:induction false} HoistOperandsSame(es: seq<Expression>, conjunction: bool)
    requires forall x | x in es :: NoSingles(x) && Flat(x)
    requires forall x | x in es :: if conjunction then !x.Conjunction? else !x.Disjunction?
    ensures HoistOperands(es, conjunction) == es
    decreases es, 0
  {
    if es != [] {
      var init, last := es[..|es| - 1], es[|es| - 1];
      assert last in es;
      HoistOperandsSame(init, conjunction);
      HoistSame(last);
      assert es == init + [last];
    }
  }

  lemma {:induction false} AlignSame(e: Expression)
    requires Aligned(e)
    ensures Align(e) == e
  {
    match e
    case Empty =>
    case Conjunction(ops) =>
      forall k | 0 <= k < |ops|
        ensures Align(ops[k]) == ops[k]
      {
        assert ops[k] in ops;
        AlignSame(ops[k]);
      }
    case Disjunction(ops) =>
      forall k | 0 <= k < |ops|
        ensures Align(ops[k]) == ops[k]
      {
        assert ops[k] in ops;
        AlignSame(ops[k]);
      }
    case Negation(x) => AlignSame(x);
    case Atom(_) =>
  }

  lemma {:induction false} DenegateSame(e: Expression)
    requires NegationFree(e)
    ensures Denegate(e, false) == e
  {
    match e
    case Empty =>
    case Conjunction(ops) =>
      forall k | 0 <= k < |ops|
        ensures Denegate(ops[k], false) == ops[k]
      {
        assert ops[k] in ops;
        DenegateSame(ops[k]);
      }
    case Disjunction(ops) =>
      forall k | 0 <= k < |ops|
        ensures Denegate(ops[k], false) == ops[k]
      {
        assert ops[k] in ops;
        DenegateSame(ops[k]);
      }
    case Negation(_) =>
    case Atom(_) =>
  }

  lemma {:induction false} DeduplicateSame(e: Expression)
    requires NegationFree(e) && DistinctOperands(e)
    ensures Deduplicate(e) == e
    decreases e, 1
  {
    match e
    case Empty =>
    case Conjunction(ops) => DeduplicateOperandsSame(ops);
    case Disjunction(ops) => DeduplicateOperandsSame(ops);
    case Negation(_) =>
    case Atom(_) =>
  }

  lemma {:induction false} DeduplicateOperandsSame(es: seq<Expression>)
    requires Distinct(es) && forall x | x in es :: NegationFree(x) && DistinctOperands(x)
    ensures DeduplicateOperands(es) == es
    decreases es, 0
  {
    if es != [] {
      var init, last := es[..|es| - 1], es[|es| - 1];
      assert last in es;
      DeduplicateOperandsSame(init);
      DeduplicateSame(last);
      assert es == init + [last];
    }
  }

  // -- what the passes leave alone has their shape ------------------------------------------------

  lemma {:induction false} HoistedFlat(e: Expression)
    requires Hoist(e) == e
    ensures Flat(e)
    decreases e, 1
  {
    match e
    case Empty =>
    case Conjunction(ops) =>
      HoistOperandsSize(ops, true);
      UnwrapSize(HoistOperands(ops, true), true);
      HoistedOperandsFlat(ops, true);
    case Disjunction(ops) =>
      HoistOperandsSize(ops, false);
      UnwrapSize(HoistOperands(ops, false), false);
      HoistedOperandsFlat(ops, false);
    case Negation(x) => HoistedFlat(x);
    case Atom(_) =>
  }

  lemma {:induction false} HoistedOperandsFlat(es: seq<Expression>, conjunction: bool)
    requires HoistOperands(es, conjunction) == es
    ensures forall x | x in es :: Flat(x) && if conjunction then !x.Conjunction? else !x.Disjunction?
    decreases es, 0
  {
    if es != [] {
      var init, last := es[..|es| - 1], es[|es| - 1];
      var h := HoistOperands(init, conjunction);
      HoistOperandsSize(init, conjunction);
      assert es == init + [last];
      if (conjunction && last.Conjunction?) || (!conjunction && last.Disjunction?) {
        HoistEachSize(last.ops);
        SizeAppend(h, HoistEach(last.ops));
        assert false;
      }
      assert h == init && Hoist(last) == last;
      HoistedOperandsFlat(init, conjunction);
      HoistedFlat(last);
    }
  }

  ghost predicate Shrinks(e: Expression) {
    Size(Deduplicate(e)) <= Size(e) && (Size(Deduplicate(e)) == Size(e) ==> Deduplicate(e) == e)
  }

  lemma DeduplicateLast(es: seq<Expression>, e: Expression)
    ensures var r, x := DeduplicateOperands(es), Deduplicate(e);
            DeduplicateOperands(es + [e]) == if x in r then r else r + [x]
  {
    assert (es + [e])[..|es|] == es;
  }

  lemma SizeLast(es: seq<Expression>, e: Expression)
    ensures SizeAll(es + [e]) == SizeAll(es) + Size(e) && Size(e) > 0
  {
    assert (es + [e])[..|es|] == es;
  }

  lemma DeduplicateStep(es: seq<Expression>, e: Expression)
    requires Shrinks(e) && SizeAll(DeduplicateOperands(es)) <= SizeAll(es)
    requires SizeAll(DeduplicateOperands(es)) == SizeAll(es) ==> DeduplicateOperands(es) == es
    ensures SizeAll(DeduplicateOperands(es + [e])) <= SizeAll(es + [e])
    ensures SizeAll(DeduplicateOperands(es + [e])) == SizeAll(es + [e]) ==> DeduplicateOperands(es + [e]) == es + [e]
  {
    hide SizeAll, Size, Deduplicate, DeduplicateOperands;
    DeduplicateLast(es, e);
    SizeLast(es, e);
    SizeLast(DeduplicateOperands(es), Deduplicate(e));
  }

  lemma {:induction false} DeduplicateOperandsSize(es: seq<Expression>)
    requires forall x | x in es :: Shrinks(x)
    ensures SizeAll(DeduplicateOperands(es)) <= SizeAll(es)
    ensures SizeAll(DeduplicateOperands(es)) == SizeAll(es) ==> DeduplicateOperands(es) == es
    decreases |es|
  {
    if es == [] {
    } else {
      hide SizeAll, DeduplicateOperands, Shrinks;
      var init, last := es[..|es| - 1], es[|es| - 1];
      assert init + [last] == es;
      DeduplicateOperandsSize(init);
      DeduplicateStep(init, last);
    }
  }

  /** Deduplicating shrinks an expression or leaves it as it is. */
  lemma {:induction false} DeduplicateSize(e: Expression)
    ensures Shrinks(e)
  {
    match e
    case Empty =>
    case Conjunction(ops) =>
      forall x | x in ops
        ensures Shrinks(x)
      {
        DeduplicateSize(x);
      }
      DeduplicateOperandsSize(ops);
    case Disjunction(ops) =>
      forall x | x in ops
        ensures Shrinks(x)
      {
        DeduplicateSize(x);
      }
      DeduplicateOperandsSize(ops);
    case Negation(x) => DeduplicateSize(x);
    case Atom(_) =>
  }

  /** Aligning keeps the size, and pushing negations down does not add to it. */
  lemma {:induction false} DenegateSize(e: Expression, negate: bool)
    ensures Size(Denegate(Align(e), negate)) <= Size(e)
    decreases e, 1
  {
    match e
    case Empty =>
    case Conjunction(ops) => DenegateAllSize(ops, Denegate(Align(e), negate).ops, negate);
    case Disjunction(ops) => DenegateAllSize(ops, Denegate(Align(e), negate).ops, negate);
    case Negation(x) =>
      if x.Negation? {
        DenegateSize(x.expr, negate);
      } else {
        DenegateSize(x, !negate);
      }
    case Atom(_) =>
  }

  lemma {:induction false} DenegateAllSize(es: seq<Expression>, fs: seq<Expression>, negate: bool)
    requires |es| == |fs| && forall k :: 0 <= k < |es| ==> fs[k] == Denegate(Align(es[k]), negate)
    ensures SizeAll(fs) <= SizeAll(es)
    decreases es, 0
  {
    if es != [] {
      var last := |es| - 1;
      DenegateAllSize(es[..last], fs[..last], negate);
      DenegateSize(es[last], negate);
    }
  }

  // -- the fixpoints ------------------------------------------------------------------------------

  /** Normalization leaves exactly the normal expressions as they are. */
  lemma NormalExactly(e: Expression)
    ensures Normalize(e) == e <==> IsNormal(e)
  {
    hide Hoist, Align, Denegate, Deduplicate, Size, NegationFree, EveryPredicate, NoSingles, Flat, DistinctOperands;
    if IsNormal(e) {
      HoistSame(e);
      AlignSame(e);
      DenegateSame(e);
      DeduplicateSame(e);
    }
    if Normalize(e) == e {
      SameSize(e);
      NormalizeShape(e);
      HoistedFlat(e);
      DeduplicateDistinct(Denegate(Align(Hoist(e)), false));
    }
  }

  /** Where the passes together do not shrink an expression, the last two leave it alone. */
  lemma SameSize(e: Expression)
    ensures Size(Normalize(e)) <= Size(e)
    ensures Size(Normalize(e)) == Size(e) ==>
              Hoist(e) == e && Normalize(e) == Deduplicate(Denegate(Align(e), false)) == Denegate(Align(e), false)
  {
    hide Hoist, Align, Denegate, Deduplicate, Size;
    var d := Denegate(Align(Hoist(e)), false);
    HoistSize(e);
    DenegateSize(Hoist(e), false);
    DeduplicateSize(d);
    HoistSize(Deduplicate(d));
  }

  /** Normalizing once more makes a normal form smaller, or it has nothing left to do. */
  lemma NormalizeAgain(e: Expression)
    ensures var n := Normalize(e);
            Size(Normalize(n)) < Size(n) || (Normalize(n) == n && IsNormal(n))
  {
    hide Hoist, Align, Denegate, Deduplicate, Size, NegationFree, EveryPredicate, IsNormal;
    var n := Normalize(e);
    SameSize(n);
    NormalizeShape(e);
    AlignSame(n);
    DenegateSame(n);
    NormalExactly(n);
  }

  lemma HoistTwo(x: Expression, y: Expression, conjunction: bool)
    requires if conjunction then !x.Conjunction? && !y.Conjunction? else !x.Disjunction? && !y.Disjunction?
    ensures HoistOperands([x], conjunction) == [Hoist(x)]
    ensures HoistOperands([x, y], conjunction) == [Hoist(x), Hoist(y)]
  {
    hide Hoist;
    assert [x, y][..1] == [x] && [x][..0] == [];
    assert HoistOperands([], conjunction) == [];
    assert HoistOperands([x], conjunction) == [Hoist(x)];
  }

  lemma DeduplicateTwo(x: Expression, y: Expression)
    ensures DeduplicateOperands([x, y])
         == if Deduplicate(x) == Deduplicate(y) then [Deduplicate(x)] else [Deduplicate(x), Deduplicate(y)]
  {
    hide Deduplicate;
    assert [x, y][..1] == [x] && [x][..0] == [];
    assert DeduplicateOperands([]) == [];
    assert DeduplicateOperands([x]) == [Deduplicate(x)];
  }

  /** Once need not be enough: unwrapping a deduplicated operand can repeat another one. */
  lemma OnceIsNotEnough(p: Predicate)
    requires AlignedPredicate(p)
    ensures var a := Atom(p);
            var n := Normalize(Conjunction([a, Disjunction([a, a])]));
            n == Conjunction([a, a]) && Normalize(n) == a
  {
    hide Hoist, Align, Denegate, Deduplicate;
    var a := Atom(p);
    var d := Disjunction([a, a]);
    HoistedPairs(a, d);
    PlainPair(a, d);
    DeduplicatedPairs(a, d);
  }

  lemma HoistedPairs(a: Expression, d: Expression)
    requires a.Atom? && d == Disjunction([a, a])
    ensures Hoist(Conjunction([a, d])) == Conjunction([a, d]) && Hoist(Conjunction([a, a])) == Conjunction([a, a])
    ensures Hoist(Conjunction([a, Disjunction([a])])) == Conjunction([a, a]) && Hoist(Conjunction([a])) == a
  {
    hide HoistOperands;
    HoistTwo(a, a, false);
    HoistTwo(a, a, true);
    HoistTwo(a, d, true);
    HoistTwo(a, Disjunction([a]), true);
    assert Hoist(Disjunction([a])) == a;
  }

  lemma DeduplicatedPairs(a: Expression, d: Expression)
    requires a.Atom? && d == Disjunction([a, a])
    ensures Deduplicate(Conjunction([a, d])) == Conjunction([a, Disjunction([a])])
    ensures Deduplicate(Conjunction([a, a])) == Conjunction([a])
  {
    hide DeduplicateOperands;
    DeduplicateTwo(a, a);
    DeduplicateTwo(a, d);
    assert Deduplicate(d) == Disjunction([a]);
  }

  lemma PlainPair(a: Expression, d: Expression)
    requires a.Atom? && AlignedPredicate(a.pred) && d == Disjunction([a, a])
    ensures var e, n := Conjunction([a, d]), Conjunction([a, a]);
            Denegate(Align(e), false) == e && Denegate(Align(n), false) == n
  {
    var e, n := Conjunction([a, d]), Conjunction([a, a]);
    assert Aligned(d) && NegationFree(d);
    AlignSame(e);
    AlignSame(n);
    DenegateSame(e);
    DenegateSame(n);
  }
}
