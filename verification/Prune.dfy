// Pruning of expressions for the catalog lookup: repeated lookups of one string value in
// several fields become one lookup in all strings.
module Pruning {
  import opened Expressions
  import opened Normalizing
  import opened NormalForms
  import opened Sizes

  predicate Prunable(p: Predicate, unprunable: set<string>) {
    && (p.lhs.FieldExtractor? || p.lhs == TypeExtractor(StringType))
    && p.rhs.Literal? && p.rhs.data.Text?
    && (p.lhs.FieldExtractor? ==> p.lhs.field !in unprunable)
  }

  predicate PrunableAtom(e: Expression, unprunable: set<string>) {
    e.Atom? && Prunable(e.pred, unprunable)
  }

  /** The same lookup in all strings. */
  function AnyString(p: Predicate): Predicate {
    Predicate(TypeExtractor(StringType), p.op, p.rhs)
  }

  predicate SameLookup(e: Expression, p: Predicate, unprunable: set<string>) {
    PrunableAtom(e, unprunable) && e.pred.op == p.op && e.pred.rhs == p.rhs
  }

  /** The position of the first lookup of the same value, or the length if there is none. */
  function Twin(es: seq<Expression>, p: Predicate, unprunable: set<string>): (k: nat)
    ensures k <= |es|
    ensures k < |es| ==> SameLookup(es[k], p, unprunable)
    ensures forall j :: 0 <= j < k ==> !SameLookup(es[j], p, unprunable)
  {
    if es == [] then 0
    else
      var k := Twin(es[..|es| - 1], p, unprunable);
      if k < |es| - 1 then k
      else if SameLookup(es[|es| - 1], p, unprunable) then |es| - 1 else |es|
  }

  /** The pruned operands after one more operand. */
  function AddOperand(r: seq<Expression>, e: Expression, pruned: Expression, unprunable: set<string>): seq<Expression> {
    if PrunableAtom(e, unprunable) then
      var k := Twin(r, e.pred, unprunable);
      if k < |r| then r[k := Atom(AnyString(e.pred))] else r + [e]
    else
      r + [pruned]
  }

  function PruneOperands(es: seq<Expression>, unprunable: set<string>): seq<Expression>
    decreases es
  {
    if es == [] then []
    else
      var e := es[|es| - 1];
      AddOperand(PruneOperands(es[..|es| - 1], unprunable), e, PruneOnce(e, unprunable), unprunable)
  }

  function PruneOnce(e: Expression, unprunable: set<string>): Expression
    decreases e
  {
    match e
    case Empty => Empty
    case Conjunction(ops) => Conjunction(PruneOperands(ops, unprunable))
    case Disjunction(ops) => Disjunction(PruneOperands(ops, unprunable))
    case Negation(x) => Negation(PruneOnce(x, unprunable))
    case Atom(_) => e
  }

  // -- the pruner as it runs -------------------------------------------------------------

  /** The memo points to the prunable atoms among the results so far, in order. */
  ghost predicate MemoOf(memo: seq<nat>, r: seq<Expression>, unprunable: set<string>) {
    && (forall j :: 0 <= j < |memo| ==> memo[j] < |r| && PrunableAtom(r[memo[j]], unprunable))
    && (forall j, k :: 0 <= j < k < |memo| ==> memo[j] < memo[k])
    && (forall k :: 0 <= k < |r| && PrunableAtom(r[k], unprunable) ==> k in memo)
  }

  method FindInMemo(memo: seq<nat>, r: seq<Expression>, p: Predicate, unprunable: set<string>) returns (k: nat)
    requires MemoOf(memo, r, unprunable)
    ensures k == Twin(r, p, unprunable)
  {
    var j := 0;
    while j < |memo|
      invariant 0 <= j <= |memo|
      invariant forall l :: 0 <= l < j ==> !SameLookup(r[memo[l]], p, unprunable)
    {
      var q := r[memo[j]].pred;
      if q.op == p.op && q.rhs == p.rhs {
        forall l | 0 <= l < memo[j]
          ensures !SameLookup(r[l], p, unprunable)
        {
          if PrunableAtom(r[l], unprunable) {
            var m :| 0 <= m < |memo| && memo[m] == l;
            assert m < j;
          }
        }
        return memo[j];
      }
      j := j + 1;
    }
    forall l | 0 <= l < |r|
      ensures !SameLookup(r[l], p, unprunable)
    {
      if PrunableAtom(r[l], unprunable) {
        var m :| 0 <= m < |memo| && memo[m] == l;
      }
    }
    k := |r|;
  }

  method RunPruner(connective: seq<Expression>, unprunable: set<string>) returns (result: seq<Expression>)
    ensures result == PruneOperands(connective, unprunable)
    decreases connective, 0
  {
    result := [];
    var memo: seq<nat> := [];
    for i := 0 to |connective|
      invariant result == PruneOperands(connective[..i], unprunable)
      invariant MemoOf(memo, result, unprunable)
    {
      hide Prunable, Twin, MemoOf, PruneOperands, PruneOnce, AddOperand;
      PruneOperandsLast(connective[..i], connective[i], unprunable);
      assert connective[..i + 1] == connective[..i] + [connective[i]];
      var operand := connective[i];
      if PrunableAtom(operand, unprunable) {
        var k := FindInMemo(memo, result, operand.pred, unprunable);
        AddPrunable(result, operand, PruneOnce(operand, unprunable), unprunable);
        if k < |result| {
          MemoReplaced(memo, result, k, operand.pred, unprunable);
          result := result[k := Atom(AnyString(operand.pred))];
        } else {
          MemoAppended(memo, result, operand, unprunable);
          memo := memo + [|result|];
          result := result + [operand];
        }
      } else {
        var x := PruneExpression(operand, unprunable);
        NotPrunable(operand, unprunable);
        AddOther(result, operand, x, unprunable);
        MemoKept(memo, result, x, unprunable);
        result := result + [x];
      }
    }
    assert connective[..|connective|] == connective;
  }

  lemma PruneOperandsLast(es: seq<Expression>, e: Expression, unprunable: set<string>)
    ensures PruneOperands(es + [e], unprunable)
         == AddOperand(PruneOperands(es, unprunable), e, PruneOnce(e, unprunable), unprunable)
  {
    assert (es + [e])[..|es|] == es;
  }

  lemma AddPrunable(r: seq<Expression>, e: Expression, pruned: Expression, unprunable: set<string>)
    requires PrunableAtom(e, unprunable)
    ensures var k := Twin(r, e.pred, unprunable);
            AddOperand(r, e, pruned, unprunable) == if k < |r| then r[k := Atom(AnyString(e.pred))] else r + [e]
  {
  }

  lemma AddOther(r: seq<Expression>, e: Expression, pruned: Expression, unprunable: set<string>)
    requires !PrunableAtom(e, unprunable)
    ensures AddOperand(r, e, pruned, unprunable) == r + [pruned]
  {
  }

  lemma NotPrunable(e: Expression, unprunable: set<string>)
    requires !PrunableAtom(e, unprunable)
    ensures !PrunableAtom(PruneOnce(e, unprunable), unprunable)
  {
  }

  lemma MemoReplaced(memo: seq<nat>, r: seq<Expression>, k: nat, p: Predicate, unprunable: set<string>)
    requires MemoOf(memo, r, unprunable) && k < |r| && PrunableAtom(r[k], unprunable) && Prunable(p, unprunable)
    ensures MemoOf(memo, r[k := Atom(AnyString(p))], unprunable)
  {
    assert PrunableAtom(Atom(AnyString(p)), unprunable);
    hide PrunableAtom;
  }

  lemma MemoAppended(memo: seq<nat>, r: seq<Expression>, e: Expression, unprunable: set<string>)
    requires MemoOf(memo, r, unprunable) && PrunableAtom(e, unprunable)
    ensures MemoOf(memo + [|r|], r + [e], unprunable)
  {
    hide PrunableAtom;
  }

  lemma MemoKept(memo: seq<nat>, r: seq<Expression>, e: Expression, unprunable: set<string>)
    requires MemoOf(memo, r, unprunable) && !PrunableAtom(e, unprunable)
    ensures MemoOf(memo, r + [e], unprunable)
  {
    hide PrunableAtom;
  }

  method PruneExpression(e: Expression, unprunable: set<string>) returns (r: Expression)
    ensures r == PruneOnce(e, unprunable)
    decreases e
  {
    match e
    case Empty => r := Empty;
    case Conjunction(ops) =>
      var result := RunPruner(ops, unprunable);
      r := Conjunction(result);
    case Disjunction(ops) =>
      var result := RunPruner(ops, unprunable);
      r := Disjunction(result);
    case Negation(x) =>
      var y := PruneExpression(x, unprunable);
      r := Negation(y);
    case Atom(_) => r := e;
  }

  // -- sizes ---------------------------------------------------------------------------------

  /** Pruning shrinks an expression or leaves it as it is. */
  lemma {:induction false} PruneSize(e: Expression, unprunable: set<string>)
    ensures Size(PruneOnce(e, unprunable)) <= Size(e)
    ensures Size(PruneOnce(e, unprunable)) == Size(e) ==> PruneOnce(e, unprunable) == e
    decreases e, 1
  {
    match e
    case Empty =>
    case Conjunction(ops) => PruneOperandsSize(ops, unprunable);
    case Disjunction(ops) => PruneOperandsSize(ops, unprunable);
    case Negation(x) => PruneSize(x, unprunable);
    case Atom(_) =>
  }

  lemma {:induction false} PruneOperandsSize(es: seq<Expression>, unprunable: set<string>)
    ensures SizeAll(PruneOperands(es, unprunable)) <= SizeAll(es)
    ensures SizeAll(PruneOperands(es, unprunable)) == SizeAll(es) ==> PruneOperands(es, unprunable) == es
    decreases es, 0
  {
    hide PrunableAtom, Twin, AddOperand, Size, PruneOnce;
    if es != [] {
      var init, e := es[..|es| - 1], es[|es| - 1];
      assert es == init + [e];
      assert SizeAll(es) == SizeAll(init) + Size(e);
      PruneOperandsLast(init, e, unprunable);
      hide SizeAll, PruneOperands;
      PruneOperandsSize(init, unprunable);
      PruneSize(e, unprunable);
      AddOperandSize(PruneOperands(init, unprunable), e, PruneOnce(e, unprunable), unprunable);
    }
  }

  lemma AddOperandSize(r: seq<Expression>, e: Expression, pruned: Expression, unprunable: set<string>)
    requires Size(pruned) <= Size(e)
    ensures var r' := AddOperand(r, e, pruned, unprunable);
            && SizeAll(r') <= SizeAll(r) + Size(e)
            && (SizeAll(r') == SizeAll(r) + Size(e) ==>
                  if PrunableAtom(e, unprunable) then r' == r + [e] else r' == r + [pruned] && Size(pruned) == Size(e))
  {
    hide Prunable;
    SizeAppend(r, [e]);
    SizeAppend(r, [pruned]);
    assert SizeAll([e]) == SizeAll([]) + Size(e);
    assert SizeAll([pruned]) == SizeAll([]) + Size(pruned);
    if PrunableAtom(e, unprunable) {
      var k := Twin(r, e.pred, unprunable);
      if k < |r| {
        SizeUpdate(r, k, Atom(AnyString(e.pred)));
      }
    }
  }

  // -- meaning ---------------------------------------------------------------------------------

  /** Finding a value in a field implies finding it among all strings. */
  ghost predicate FieldsAreStrings(i: Interpretation, unprunable: set<string>) {
    forall p: Predicate :: Prunable(p, unprunable) && i(p) ==> i(AnyString(p))
  }

  lemma AddOperandWeakens(
    r: seq<Expression>, e: Expression, pruned: Expression, unprunable: set<string>, i: Interpretation)
    requires FieldsAreStrings(i, unprunable) && (Holds(e, i) ==> Holds(pruned, i))
    ensures var r' := AddOperand(r, e, pruned, unprunable);
            && (AllHold(r, i) && Holds(e, i) ==> AllHold(r', i))
            && (AnyHolds(r, i) || Holds(e, i) ==> AnyHolds(r', i))
  {
    hide Prunable;
    HoldAppend(r, [e], i);
    HoldAppend(r, [pruned], i);
    HoldOne(e, i);
    HoldOne(pruned, i);
    if PrunableAtom(e, unprunable) {
      var k := Twin(r, e.pred, unprunable);
      if k < |r| {
        var r' := r[k := Atom(AnyString(e.pred))];
        assert AnyString(r[k].pred) == AnyString(e.pred);
        assert Holds(r[k], i) ==> Holds(r'[k], i);
        assert Holds(e, i) ==> Holds(r'[k], i);
        WeakenedAt(r, r', k, i);
      }
    }
  }

  lemma WeakenedAt(r: seq<Expression>, r': seq<Expression>, k: nat, i: Interpretation)
    requires k < |r| == |r'| && (forall j :: 0 <= j < |r| && j != k ==> r'[j] == r[j])
    requires Holds(r[k], i) ==> Holds(r'[k], i)
    ensures AllHold(r, i) ==> AllHold(r', i)
    ensures AnyHolds(r, i) || Holds(r'[k], i) ==> AnyHolds(r', i)
  {
    assert forall j :: 0 <= j < |r| && Holds(r[j], i) ==> r'[j] in r' && Holds(r'[j], i);
    assert r'[k] in r';
  }

  /** What satisfies an expression without negations still satisfies it when pruned. */
  lemma {:induction false} PruneWeakens(e: Expression, unprunable: set<string>, i: Interpretation)
    requires FieldsAreStrings(i, unprunable) && NegationFree(e)
    ensures Holds(e, i) ==> Holds(PruneOnce(e, unprunable), i)
    decreases e, 1
  {
    match e
    case Empty =>
    case Conjunction(ops) => PruneOperandsWeaken(ops, unprunable, i);
    case Disjunction(ops) => PruneOperandsWeaken(ops, unprunable, i);
    case Negation(_) =>
    case Atom(_) =>
  }

  lemma {:induction false} PruneOperandsWeaken(es: seq<Expression>, unprunable: set<string>, i: Interpretation)
    requires FieldsAreStrings(i, unprunable) && forall x | x in es :: NegationFree(x)
    ensures AllHold(es, i) ==> AllHold(PruneOperands(es, unprunable), i)
    ensures AnyHolds(es, i) ==> AnyHolds(PruneOperands(es, unprunable), i)
    decreases es, 0
  {
    hide Prunable, Twin, FieldsAreStrings;
    if es != [] {
      var init, e := es[..|es| - 1], es[|es| - 1];
      PruneOperandsWeaken(init, unprunable, i);
      PruneWeakens(e, unprunable, i);
      AddOperandWeakens(PruneOperands(init, unprunable), e, PruneOnce(e, unprunable), unprunable, i);
      HoldAppend(init, [e], i);
      HoldOne(e, i);
      assert es == init + [e];
    }
  }

  /** Finding a value among all strings is as good as finding it in a field. */
  ghost predicate FieldsStandForStrings(i: Interpretation, unprunable: set<string>) {
    forall p: Predicate :: Prunable(p, unprunable) ==> i(p) == i(AnyString(p))
  }

  lemma AddOperandKeeps(
    r: seq<Expression>, e: Expression, pruned: Expression, unprunable: set<string>, i: Interpretation)
    requires FieldsStandForStrings(i, unprunable) && Holds(e, i) == Holds(pruned, i)
    ensures var r' := AddOperand(r, e, pruned, unprunable);
            && AllHold(r', i) == (AllHold(r, i) && Holds(e, i))
            && AnyHolds(r', i) == (AnyHolds(r, i) || Holds(e, i))
  {
    hide Prunable;
    HoldAppend(r, [e], i);
    HoldAppend(r, [pruned], i);
    HoldOne(e, i);
    HoldOne(pruned, i);
    if PrunableAtom(e, unprunable) {
      var k := Twin(r, e.pred, unprunable);
      if k < |r| {
        var r' := r[k := Atom(AnyString(e.pred))];
        assert AnyString(r[k].pred) == AnyString(e.pred);
        assert Holds(r[k], i) == i(r[k].pred) == i(AnyString(e.pred));
        assert Holds(r'[k], i) == i(AnyString(e.pred)) == i(e.pred) == Holds(e, i);
        HoldPointwise(r, r', i, i);
        assert r[k] in r;
      }
    }
  }

  /** Where fields stand for strings, pruning keeps the meaning, negations or not. */
  lemma {:induction false} PruneKeeps(e: Expression, unprunable: set<string>, i: Interpretation)
    requires FieldsStandForStrings(i, unprunable)
    ensures Holds(PruneOnce(e, unprunable), i) == Holds(e, i)
    decreases e, 1
  {
    match e
    case Empty =>
    case Conjunction(ops) => PruneOperandsKeep(ops, unprunable, i);
    case Disjunction(ops) => PruneOperandsKeep(ops, unprunable, i);
    case Negation(x) => PruneKeeps(x, unprunable, i);
    case Atom(_) =>
  }

  lemma {:induction false} PruneOperandsKeep(es: seq<Expression>, unprunable: set<string>, i: Interpretation)
    requires FieldsStandForStrings(i, unprunable)
    ensures AllHold(PruneOperands(es, unprunable), i) == AllHold(es, i)
    ensures AnyHolds(PruneOperands(es, unprunable), i) == AnyHolds(es, i)
    decreases es, 0
  {
    hide Prunable, Twin, FieldsStandForStrings;
    if es != [] {
      var init, e := es[..|es| - 1], es[|es| - 1];
      PruneOperandsKeep(init, unprunable, i);
      PruneKeeps(e, unprunable, i);
      AddOperandKeeps(PruneOperands(init, unprunable), e, PruneOnce(e, unprunable), unprunable, i);
      HoldAppend(init, [e], i);
      HoldOne(e, i);
      assert es == init + [e];
    }
  }

  lemma {:induction false} PruneNegationFree(e: Expression, unprunable: set<string>)
    requires NegationFree(e)
    ensures NegationFree(PruneOnce(e, unprunable))
    decreases e, 1
  {
    match e
    case Empty =>
    case Conjunction(ops) => PruneOperandsNegationFree(ops, unprunable);
    case Disjunction(ops) => PruneOperandsNegationFree(ops, unprunable);
    case Negation(_) =>
    case Atom(_) =>
  }

  lemma {:induction false} PruneOperandsNegationFree(es: seq<Expression>, unprunable: set<string>)
    requires forall x | x in es :: NegationFree(x)
    ensures forall x | x in PruneOperands(es, unprunable) :: NegationFree(x)
    decreases es, 0
  {
    hide Prunable, Twin;
    if es != [] {
      PruneOperandsNegationFree(es[..|es| - 1], unprunable);
      PruneNegationFree(es[|es| - 1], unprunable);
    }
  }

  // -- the fixpoint --------------------------------------------------------------------------------

  /**
   * What pruning promises about its result: it is no larger; what satisfies the input, if
   * that has no negations, satisfies the result; and where fields stand for strings, the
   * two mean the same.
   */
  ghost predicate PrunedFrom(e: Expression, r: Expression, unprunable: set<string>) {
    && Size(r) <= Size(e)
    && (NegationFree(e) ==> NegationFree(r))
    && (NegationFree(e) ==>
          forall i: Interpretation :: FieldsAreStrings(i, unprunable) && Holds(e, i) ==> Holds(r, i))
    && (forall i: Interpretation :: FieldsStandForStrings(i, unprunable) ==> Holds(r, i) == Holds(e, i))
  }

  lemma PrunedOnce(e: Expression, unprunable: set<string>)
    ensures PrunedFrom(e, PruneOnce(e, unprunable), unprunable)
    ensures Size(PruneOnce(e, unprunable)) == Size(e) ==> PruneOnce(e, unprunable) == e
  {
    hide PruneOnce, Holds, FieldsAreStrings, FieldsStandForStrings;
    PruneSize(e, unprunable);
    forall i: Interpretation | FieldsStandForStrings(i, unprunable)
      ensures Holds(PruneOnce(e, unprunable), i) == Holds(e, i)
    {
      PruneKeeps(e, unprunable, i);
    }
    if NegationFree(e) {
      PruneNegationFree(e, unprunable);
      forall i: Interpretation | FieldsAreStrings(i, unprunable) && Holds(e, i)
        ensures Holds(PruneOnce(e, unprunable), i)
      {
        PruneWeakens(e, unprunable, i);
      }
    }
  }

  lemma HoistedOnce(e: Expression, unprunable: set<string>)
    ensures PrunedFrom(e, Hoist(e), unprunable)
    ensures Size(Hoist(e)) == Size(e) ==> Hoist(e) == e
  {
    hide Hoist, Holds, FieldsAreStrings, FieldsStandForStrings;
    HoistSize(e);
    HoistShape(e, AlignedPredicate);
    forall i: Interpretation
      ensures Holds(Hoist(e), i) == Holds(e, i)
    {
      HoistHolds(e, i);
    }
  }

  lemma PrunedTransitive(e: Expression, f: Expression, g: Expression, unprunable: set<string>)
    requires PrunedFrom(e, f, unprunable) && PrunedFrom(f, g, unprunable)
    ensures PrunedFrom(e, g, unprunable)
  {
    hide Holds, FieldsAreStrings, FieldsStandForStrings, NegationFree, Size;
  }

  lemma RoundSmaller(e: Expression, unprunable: set<string>)
    ensures var r := Hoist(PruneOnce(e, unprunable));
            && PrunedFrom(e, r, unprunable) && Size(r) <= Size(e)
            && (Size(r) == Size(e) ==> r == e && PruneOnce(e, unprunable) == e)
  {
    hide PruneOnce, Hoist;
    var p := PruneOnce(e, unprunable);
    PrunedOnce(e, unprunable);
    HoistedOnce(p, unprunable);
    PrunedTransitive(e, p, Hoist(p), unprunable);
  }

  /** Rounds of pruning and hoisting until nothing changes; each round that changes something shrinks. */
  function PruneRounds(e: Expression, unprunable: set<string>): Expression
    decreases Size(e)
  {
    var r := Hoist(PruneOnce(e, unprunable));
    RoundSmaller(e, unprunable);
    if r == e then r else PruneRounds(r, unprunable)
  }

  function Pruned(e: Expression, unprunable: set<string>): Expression {
    var r := PruneOnce(e, unprunable);
    if r == e then r else PruneRounds(r, unprunable)
  }

  /** The end of the rounds is a fixpoint of the pruner, with all that one round promises. */
  lemma {:induction false} RoundsEnd(e: Expression, unprunable: set<string>)
    ensures var r := PruneRounds(e, unprunable);
            PruneOnce(r, unprunable) == r && Hoist(r) == r && PrunedFrom(e, r, unprunable)
    decreases Size(e)
  {
    hide PruneOnce, Hoist, PrunedFrom;
    var r := Hoist(PruneOnce(e, unprunable));
    RoundSmaller(e, unprunable);
    if r != e {
      RoundsEnd(r, unprunable);
      PrunedTransitive(e, r, PruneRounds(r, unprunable), unprunable);
    }
  }

  lemma PrunedEnd(e: Expression, unprunable: set<string>)
    ensures var r := Pruned(e, unprunable);
            PruneOnce(r, unprunable) == r && PrunedFrom(e, r, unprunable)
  {
    hide PruneOnce, Hoist, PrunedFrom, PruneRounds;
    PrunedOnce(e, unprunable);
    var r := PruneOnce(e, unprunable);
    if r != e {
      RoundsEnd(r, unprunable);
      PrunedTransitive(e, r, PruneRounds(r, unprunable), unprunable);
    }
  }

  /** Prunes and hoists until nothing changes. */
  method Prune(expr: Expression, unprunable: set<string>) returns (result: Expression)
    ensures result == Pruned(expr, unprunable)
  {
    hide PruneOnce, Hoist, PrunedFrom;
    var e := expr;
    PruneSize(e, unprunable);
    result := PruneExpression(e, unprunable);
    ghost var first := true;
    while result != e
      invariant first ==> e == expr && result == PruneOnce(expr, unprunable)
      invariant !first ==> result == Hoist(PruneOnce(e, unprunable))
      invariant !first ==> PruneRounds(e, unprunable) == Pruned(expr, unprunable)
      invariant result != e ==> Size(result) < Size(e)
      decreases Size(e)
    {
      e := result;
      var p := PruneExpression(e, unprunable);
      result := HoistExpression(p);
      RoundSmaller(e, unprunable);
      first := false;
    }
  }
}
