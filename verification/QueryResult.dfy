// Normalization as seen in query results: which rows it can change.
module QueryResults {
  import opened Options
  import opened Expressions
  import opened Normalizing
  import opened Readings
  import opened NormalForms
  import opened Evaluation

  predicate IsOrdering(op: RelationalOperator) {
    op in {Less, LessEqual, Greater, GreaterEqual}
  }

  /** The operator gives an answer for two values: orderings need values that are ordered. */
  predicate Answers(c: Comparisons, op: RelationalOperator, lhs: Data, rhs: Data) {
    IsOrdering(op) ==> c.order(lhs, rhs) != Unordered
  }

  /** No two values satisfy an operator and its negation; one of them they satisfy exactly if
      the operator gives an answer. */
  lemma NegatedComparison(c: Comparisons, op: RelationalOperator, lhs: Data, rhs: Data)
    ensures !(CellHolds(c, op, lhs, rhs) && CellHolds(c, Negate(op), lhs, rhs))
    ensures CellHolds(c, Negate(op), lhs, rhs) == !CellHolds(c, op, lhs, rhs) <==> Answers(c, op, lhs, rhs)
  {
  }

  /** A comparison with nil asks whether the cell is null, and every other one needs a value. */
  predicate CellDecides(c: Comparisons, typ: ColumnType, op: RelationalOperator, cell: Option<Data>, rhs: Data) {
    if rhs.Nil? then op == Equal || op == NotEqual
    else if typ.EnumerationColumn? && rhs.Text? then
      rhs.text in typ.keys && cell.Some? && Answers(c, op, cell.value, EnumKey(typ.keys[rhs.text]))
    else cell.Some? && Answers(c, op, cell.value, rhs)
  }

  /** The row has what it takes to answer the predicate. */
  predicate Decides(s: Slice, id: nat, p: Predicate) {
    && BoundPredicate(p, s)
    && if p.lhs.MetaExtractor? then Answers(s.comparisons, p.op, s.meta(p.lhs.kind), p.rhs.data)
       else
         var column := s.columns[p.lhs.column];
         Offset(s) <= id < Offset(s) + |column.cells|
         && CellDecides(s.comparisons, column.typ, p.op, column.cells[id - Offset(s)], p.rhs.data)
  }

  function DecidedBy(s: Slice, id: nat): Predicate -> bool { p => Decides(s, id, p) }

  lemma RowMeaningOfCell(s: Slice, id: nat, p: Predicate)
    requires BoundPredicate(p, s) && p.lhs.DataExtractor?
    ensures var column := s.columns[p.lhs.column];
            RowMeaning(s, id)(p)
            == (Offset(s) <= id < Offset(s) + |column.cells|
                && CellMatches(s.comparisons, column.typ, p.op, column.cells[id - Offset(s)], p.rhs.data))
  {
  }

  /** Negating the operator never keeps a predicate true, and it complements the predicate on
      exactly the rows that decide it. */
  lemma ComplementExactly(s: Slice, id: nat, p: Predicate)
    requires BoundPredicate(p, s)
    ensures !(RowMeaning(s, id)(p) && RowMeaning(s, id)(NegatePredicate(p)))
    ensures Complements(RowMeaning(s, id), p) <==> Decides(s, id, p)
  {
    hide CellHolds, Answers;
    var c, rhs := s.comparisons, p.rhs.data;
    if p.lhs.MetaExtractor? {
      NegatedComparison(c, p.op, s.meta(p.lhs.kind), rhs);
    } else {
      hide RowMeaning;
      RowMeaningOfCell(s, id, p);
      RowMeaningOfCell(s, id, NegatePredicate(p));
      var column := s.columns[p.lhs.column];
      if Offset(s) <= id < Offset(s) + |column.cells| {
        NegatedCell(c, column.typ, p.op, column.cells[id - Offset(s)], rhs);
      }
    }
  }

  lemma NegatedCell(c: Comparisons, typ: ColumnType, op: RelationalOperator, cell: Option<Data>, rhs: Data)
    ensures !(CellMatches(c, typ, op, cell, rhs) && CellMatches(c, typ, Negate(op), cell, rhs))
    ensures CellMatches(c, typ, Negate(op), cell, rhs) == !CellMatches(c, typ, op, cell, rhs)
            <==> CellDecides(c, typ, op, cell, rhs)
  {
    hide CellHolds, Answers;
    if cell.Some? {
      NegatedComparison(c, op, cell.value, rhs);
      if typ.EnumerationColumn? && rhs.Text? && rhs.text in typ.keys {
        NegatedComparison(c, op, cell.value, EnumKey(typ.keys[rhs.text]));
      }
    }
  }

  lemma BoundNormalized(e: Expression, s: Slice)
    requires Bound(e, s)
    ensures Bound(Normalize(e), s)
  {
    hide Normalize, EveryPredicate;
    forall p: Predicate | BoundTo(s)(p)
      ensures AfterAligning(BoundTo(s))(p)
    {
      assert AlignPredicate(p) == p;
    }
    EveryImplies(e, BoundTo(s), AfterAligning(BoundTo(s)));
    NormalizePredicates(e, BoundTo(s));
  }

  /** On every row, the normal form of a bound expression holds only if the expression does. */
  lemma NormalOnRow(e: Expression, s: Slice, id: nat)
    requires Bound(e, s)
    ensures Holds(Normalize(e), RowMeaning(s, id)) == Reads(e, Normal(RowMeaning(s, id)), false)
    ensures Holds(Normalize(e), RowMeaning(s, id)) ==> Holds(e, RowMeaning(s, id))
  {
    hide Normalize, EveryPredicate, RowMeaning, Holds, Reads;
    var i := RowMeaning(s, id);
    forall p: Predicate | BoundTo(s)(p)
      ensures SoundFor(i)(p)
    {
      assert AlignPredicate(p) == p;
      ComplementExactly(s, id, p);
    }
    EveryImplies(e, BoundTo(s), SoundFor(i));
    NormalizeReads(e, i);
    NormalizeStrengthens(e, i);
  }

  /** On a row that decides its predicates, it holds exactly if the expression does, up to negated nils. */
  lemma NormalOnDecidedRow(e: Expression, s: Slice, id: nat)
    requires EveryPredicate(e, DecidedBy(s, id))
    ensures var i := RowMeaning(s, id);
            Holds(Normalize(e), i) == Holds(e, i) <==> Reads(e, NilsUnnegated(i), false) == Holds(e, i)
    ensures NoNegatedNil(e, false) ==> Holds(Normalize(e), RowMeaning(s, id)) == Holds(e, RowMeaning(s, id))
  {
    hide Normalize, EveryPredicate, RowMeaning, Holds, Reads, NoNegatedNil;
    var i := RowMeaning(s, id);
    forall p: Predicate | DecidedBy(s, id)(p)
      ensures TameFor(i)(p)
    {
      assert AlignPredicate(p) == p;
      ComplementExactly(s, id, p);
    }
    EveryImplies(e, DecidedBy(s, id), TameFor(i));
    NilsMatterExactly(e, i);
    if NoNegatedNil(e, false) {
      NormalizeHolds(e, i);
    }
  }

  /**
   * A row keeps its answer for every expression over some bound predicates, negated nils
   * aside, exactly if it decides each of these predicates.
   */
  lemma RowKeptExactly(s: Slice, id: nat, test: Predicate -> bool)
    requires forall p: Predicate :: test(p) ==> BoundPredicate(p, s)
    ensures KeepsMeaning(RowMeaning(s, id), test) <==> forall p: Predicate :: test(p) ==> Decides(s, id, p)
  {
    hide RowMeaning, KeepsMeaning, Decides;
    var i := RowMeaning(s, id);
    forall p: Predicate | test(p)
      ensures Tame(i, p) <==> Decides(s, id, p)
    {
      assert AlignPredicate(p) == p;
      ComplementExactly(s, id, p);
    }
    MeaningKeptExactly(i, test);
  }

  /** The row is in the slice and hinted. */
  predicate Asked(s: Slice, hints: Ids, id: nat) {
    Offset(s) <= id && (hints == [] || (id < |hints| && hints[id]))
  }

  /**
   * Evaluating the normal form gives exactly the rows on which the expression holds in its
   * normal reading. These are among the rows of the expression itself, and nothing is lost
   * on rows that decide all predicates.
   */
  method EvaluateBoth(e: Expression, s: Slice, hints: Ids) returns (plain: Ids, normal: Ids)
    requires WellFormed(s) && Bound(e, s)
    ensures |plain| == |normal| == Offset(s) + s.rows
    ensures forall id :: 0 <= id < |plain| ==> plain[id] == (Asked(s, hints, id) && Holds(e, RowMeaning(s, id)))
    ensures forall id :: 0 <= id < |plain| ==>
              normal[id] == (Asked(s, hints, id) && Reads(e, Normal(RowMeaning(s, id)), false))
    ensures forall id :: 0 <= id < |plain| ==> normal[id] ==> plain[id]
    ensures forall id :: 0 <= id < |plain| && EveryPredicate(e, DecidedBy(s, id)) && NoNegatedNil(e, false) ==>
              normal[id] == plain[id]
  {
    hide RowMeaning, EveryPredicate, Normalize, Holds, Reads, NoNegatedNil;
    BoundNormalized(e, s);
    plain := Evaluate(e, s, hints);
    var n := NormalizeExpression(e);
    normal := Evaluate(n, s, hints);
    forall id | 0 <= id < |plain|
      ensures normal[id] == (Asked(s, hints, id) && Reads(e, Normal(RowMeaning(s, id)), false))
      ensures normal[id] ==> plain[id]
      ensures EveryPredicate(e, DecidedBy(s, id)) && NoNegatedNil(e, false) ==> normal[id] == plain[id]
    {
      NormalOnRow(e, s, id);
      if EveryPredicate(e, DecidedBy(s, id)) && NoNegatedNil(e, false) {
        NormalOnDecidedRow(e, s, id);
      }
    }
  }

  /** A null cell satisfies the negation of a comparison, but not the normal form of that negation. */
  lemma NullRowChanges(s: Slice, id: nat, p: Predicate)
    requires WellFormed(s) && BoundPredicate(p, s) && p.lhs.DataExtractor? && !p.rhs.data.Nil?
    requires Offset(s) <= id < Offset(s) + s.rows && s.columns[p.lhs.column].cells[id - Offset(s)].None?
    ensures Holds(Negation(Atom(p)), RowMeaning(s, id))
    ensures !Holds(Normalize(Negation(Atom(p))), RowMeaning(s, id))
  {
    var e, i := Negation(Atom(p)), RowMeaning(s, id);
    hide RowMeaning;
    RowMeaningOfCell(s, id, p);
    RowMeaningOfCell(s, id, NegatePredicate(p));
    NormalizeNegatedAtom(p);
    assert Holds(e, i) == !Holds(Atom(p), i);
  }
}
