// What the relational operators say about values, written out, and what flipping one means.
module OperatorMeanings {
  import opened Options
  import opened Expressions
  import opened Normalizing
  import opened NormalForms
  import opened Evaluation
  import opened QueryResults

  // -- the operators on values ------------------------------------------------------------------

  /** The order of two values is that of their ranks. */
  predicate Ranked(c: Comparisons, rank: Data -> int, a: Data, b: Data) {
    c.order(a, b) == if rank(a) < rank(b) then Lower else if rank(a) > rank(b) then Higher else Equivalent
  }

  /** What an operator says about two values: orderings compare ranks, and are false of values
      that are not ordered. */
  predicate Says(c: Comparisons, rank: Data -> int, op: RelationalOperator, a: Data, b: Data) {
    match op
    case Equal => c.equal(a, b)
    case NotEqual => !c.equal(a, b)
    case Less => Ranked(c, rank, a, b) && rank(a) < rank(b)
    case LessEqual => Ranked(c, rank, a, b) && rank(a) <= rank(b)
    case Greater => Ranked(c, rank, a, b) && rank(a) > rank(b)
    case GreaterEqual => Ranked(c, rank, a, b) && rank(a) >= rank(b)
    case In => c.isIn(a, b)
    case NotIn => !c.isIn(a, b)
    case Ni => c.isIn(b, a)
    case NotNi => !c.isIn(b, a)
  }

  lemma OperatorSays(c: Comparisons, rank: Data -> int, op: RelationalOperator, a: Data, b: Data)
    requires Ranked(c, rank, a, b) || c.order(a, b) == Unordered
    ensures CellHolds(c, op, a, b) <==> Says(c, rank, op, a, b)
  {
  }

  /** The two values that a predicate compares on a row, in this order. There are none if the cell
      is null, if it is compared with nil, or if the text is no key of its enumeration. */
  function Compared(s: Slice, p: Predicate, row: nat): Option<(Data, Data)>
    requires WellFormed(s) && BoundPredicate(p, s) && row < s.rows
  {
    var rhs := p.rhs.data;
    if p.lhs.MetaExtractor? then Some((s.meta(p.lhs.kind), rhs))
    else
      var column := s.columns[p.lhs.column];
      match column.cells[row]
      case None => None
      case Some(v) =>
        if rhs.Nil? then None
        else if column.typ.EnumerationColumn? && rhs.Text? then
          if rhs.text in column.typ.keys then Some((v, EnumKey(column.typ.keys[rhs.text]))) else None
        else Some((v, rhs))
  }

  /** The ranks agree with the order of the values that are compared, as far as they are ordered. */
  ghost predicate RanksRow(s: Slice, rank: Data -> int, p: Predicate, row: nat)
    requires WellFormed(s) && BoundPredicate(p, s) && row < s.rows
  {
    match Compared(s, p, row)
    case None => true
    case Some((a, b)) => Ranked(s.comparisons, rank, a, b) || s.comparisons.order(a, b) == Unordered
  }

  /** What a predicate with the extractor on the left says about a row of the slice. */
  ghost predicate PredicateSays(s: Slice, rank: Data -> int, p: Predicate, row: nat)
    requires WellFormed(s) && BoundPredicate(p, s) && row < s.rows
  {
    match Compared(s, p, row)
    case Some((a, b)) => Says(s.comparisons, rank, p.op, a, b)
    case None => p.rhs.data.Nil? && p.op == if s.columns[p.lhs.column].cells[row].None? then Equal else NotEqual
  }

  lemma RowMeaningOfMeta(s: Slice, id: nat, p: Predicate)
    requires BoundPredicate(p, s) && p.lhs.MetaExtractor?
    ensures RowMeaning(s, id)(p) == CellHolds(s.comparisons, p.op, s.meta(p.lhs.kind), p.rhs.data)
  {
  }

  lemma RowSays(s: Slice, rank: Data -> int, p: Predicate, id: nat)
    requires WellFormed(s) && BoundPredicate(p, s) && Offset(s) <= id < Offset(s) + s.rows
    requires RanksRow(s, rank, p, id - Offset(s))
    ensures RowMeaning(s, id)(p) == PredicateSays(s, rank, p, id - Offset(s))
  {
    hide CellHolds, Says, Ranked, RowMeaning;
    if p.lhs.MetaExtractor? {
      RowMeaningOfMeta(s, id, p);
    } else {
      RowMeaningOfCell(s, id, p);
    }
    match Compared(s, p, id - Offset(s))
    case None =>
    case Some((a, b)) => OperatorSays(s.comparisons, rank, p.op, a, b);
  }

  /** Evaluating one predicate sets the bits of the asked rows it is true of. */
  method EvaluateOne(p: Predicate, s: Slice, hints: Ids, ghost rank: Data -> int) returns (result: Ids)
    requires WellFormed(s) && BoundPredicate(p, s)
    ensures |result| == Offset(s) + s.rows
    ensures forall id :: 0 <= id < |result| && result[id] ==> Asked(s, hints, id)
    ensures forall id :: 0 <= id < |result| && Asked(s, hints, id) && RanksRow(s, rank, p, id - Offset(s)) ==>
              result[id] == PredicateSays(s, rank, p, id - Offset(s))
  {
    hide PredicateSays, RanksRow, RowMeaning;
    assert Bound(Atom(p), s);
    result := Evaluate(Atom(p), s, hints);
    forall id | 0 <= id < |result| && Asked(s, hints, id) && RanksRow(s, rank, p, id - Offset(s))
      ensures Holds(Atom(p), RowMeaning(s, id)) == PredicateSays(s, rank, p, id - Offset(s))
    {
      RowSays(s, rank, p, id);
    }
  }

  // -- flipped operators ------------------------------------------------------------------------

  function Reversed(o: PartialOrdering): PartialOrdering {
    match o
    case Lower => Higher
    case Higher => Lower
    case _ => o
  }

  /** Comparing two values the other way round. */
  ghost predicate Mirrored(c: Comparisons) {
    forall a, b :: c.equal(b, a) == c.equal(a, b) && c.order(b, a) == Reversed(c.order(a, b))
  }

  /** A flipped operator says of two values what the operator says of them the other way round. */
  lemma FlipIsConverse(c: Comparisons, op: RelationalOperator, a: Data, b: Data)
    requires Mirrored(c)
    ensures CellHolds(c, Flip(op), b, a) == CellHolds(c, op, a, b)
  {
    assert c.equal(b, a) == c.equal(a, b);
  }

  /** A predicate with the value on the left and an extractor bound to the slice on the right. */
  predicate BoundRight(p: Predicate, s: Slice) {
    && p.lhs.Literal?
    && (p.rhs.MetaExtractor? || (p.rhs.DataExtractor? && p.rhs.column < |s.columns|))
  }

  /** A value compared with a cell, in this order. */
  function ValueMatches(c: Comparisons, typ: ColumnType, lhs: Data, op: RelationalOperator, cell: Option<Data>): bool {
    if lhs.Nil? then
      (op == Equal && cell.None?) || (op == NotEqual && cell.Some?)
    else if typ.EnumerationColumn? && lhs.Text? then
      lhs.text in typ.keys && cell.Some? && CellHolds(c, op, EnumKey(typ.keys[lhs.text]), cell.value)
    else
      cell.Some? && CellHolds(c, op, lhs, cell.value)
  }

  /** The meaning of predicates for a row, whichever side the value is on. */
  function BothSides(s: Slice, id: nat): Interpretation {
    p =>
      if !BoundRight(p, s) then RowMeaning(s, id)(p)
      else if p.rhs.MetaExtractor? then
        CellHolds(s.comparisons, p.op, p.lhs.data, s.meta(p.rhs.kind))
      else
        var column := s.columns[p.rhs.column];
        Offset(s) <= id < Offset(s) + |column.cells|
        && ValueMatches(s.comparisons, column.typ, p.lhs.data, p.op, column.cells[id - Offset(s)])
  }

  predicate BoundEither(p: Predicate, s: Slice) {
    BoundPredicate(p, s) || BoundRight(p, s)
  }

  function EitherBound(s: Slice): Predicate -> bool { p => BoundEither(p, s) }

  lemma BothSidesOf(s: Slice, id: nat, p: Predicate)
    ensures BoundPredicate(p, s) ==> BothSides(s, id)(p) == RowMeaning(s, id)(p)
    ensures BoundRight(p, s) && p.rhs.DataExtractor? ==>
              var column := s.columns[p.rhs.column];
              BothSides(s, id)(p) ==
              (Offset(s) <= id < Offset(s) + |column.cells|
               && ValueMatches(s.comparisons, column.typ, p.lhs.data, p.op, column.cells[id - Offset(s)]))
    ensures BoundRight(p, s) && p.rhs.MetaExtractor? ==>
              BothSides(s, id)(p) == CellHolds(s.comparisons, p.op, p.lhs.data, s.meta(p.rhs.kind))
  {
  }

  lemma ValueIsCell(c: Comparisons, typ: ColumnType, value: Data, op: RelationalOperator, cell: Option<Data>)
    requires Mirrored(c)
    ensures CellMatches(c, typ, Flip(op), cell, value) == ValueMatches(c, typ, value, op, cell)
  {
    hide CellHolds, Mirrored;
    if cell.Some? {
      FlipIsConverse(c, op, value, cell.value);
      if typ.EnumerationColumn? && value.Text? && value.text in typ.keys {
        FlipIsConverse(c, op, EnumKey(typ.keys[value.text]), cell.value);
      }
    }
  }

  /** Putting the extractor on the left never changes what a predicate says about a row. */
  lemma AlignKeeps(s: Slice, id: nat, p: Predicate)
    requires Mirrored(s.comparisons) && BoundEither(p, s)
    ensures BoundPredicate(AlignPredicate(p), s)
    ensures BothSides(s, id)(AlignPredicate(p)) == BothSides(s, id)(p)
  {
    hide CellHolds, Mirrored, BothSides, RowMeaning, CellMatches, ValueMatches;
    BothSidesOf(s, id, p);
    if BoundRight(p, s) {
      var q := AlignPredicate(p);
      assert q == Predicate(p.rhs, Flip(p.op), p.lhs);
      BothSidesOf(s, id, q);
      if p.rhs.MetaExtractor? {
        RowMeaningOfMeta(s, id, q);
        FlipIsConverse(s.comparisons, p.op, p.lhs.data, s.meta(p.rhs.kind));
      } else {
        RowMeaningOfCell(s, id, q);
        var column := s.columns[p.rhs.column];
        if Offset(s) <= id < Offset(s) + |column.cells| {
          ValueIsCell(s.comparisons, column.typ, p.lhs.data, p.op, column.cells[id - Offset(s)]);
        }
      }
    }
  }

  /** Aligning an expression keeps its answer on every row. */
  lemma {:induction false} AlignKeepsRow(e: Expression, s: Slice, id: nat)
    requires Mirrored(s.comparisons) && EveryPredicate(e, EitherBound(s))
    ensures Holds(Align(e), BothSides(s, id)) == Holds(e, BothSides(s, id))
  {
    match e
    case Empty =>
    case Conjunction(ops) =>
      forall k | 0 <= k < |ops|
        ensures Holds(Align(ops[k]), BothSides(s, id)) == Holds(ops[k], BothSides(s, id))
      {
        assert ops[k] in ops;
        AlignKeepsRow(ops[k], s, id);
      }
      HoldPointwise(Align(e).ops, ops, BothSides(s, id), BothSides(s, id));
    case Disjunction(ops) =>
      forall k | 0 <= k < |ops|
        ensures Holds(Align(ops[k]), BothSides(s, id)) == Holds(ops[k], BothSides(s, id))
      {
        assert ops[k] in ops;
        AlignKeepsRow(ops[k], s, id);
      }
      HoldPointwise(Align(e).ops, ops, BothSides(s, id), BothSides(s, id));
    case Negation(x) => AlignKeepsRow(x, s, id);
    case Atom(p) =>
      hide BothSides;
      AlignKeeps(s, id, p);
  }

  function DecidesAligned(s: Slice, id: nat): Predicate -> bool {
    p => BoundEither(p, s) && Decides(s, id, AlignPredicate(p))
  }

  lemma EitherTame(s: Slice, id: nat, p: Predicate)
    requires Mirrored(s.comparisons) && BoundEither(p, s)
    ensures Sound(BothSides(s, id), p)
    ensures Decides(s, id, AlignPredicate(p)) ==> Tame(BothSides(s, id), p)
  {
    hide BothSides, Mirrored, RowMeaning, Decides;
    var q := AlignPredicate(p);
    AlignKeeps(s, id, p);
    BothSidesOf(s, id, q);
    BothSidesOf(s, id, NegatePredicate(q));
    ComplementExactly(s, id, q);
  }

  /** The normal form of an expression with values on either side holds on a row only if the
      expression does, and exactly if it does where the row decides its predicates. */
  lemma NormalOfEither(e: Expression, s: Slice, id: nat)
    requires Mirrored(s.comparisons) && EveryPredicate(e, EitherBound(s))
    ensures Holds(Normalize(e), BothSides(s, id)) ==> Holds(e, BothSides(s, id))
    ensures EveryPredicate(e, DecidesAligned(s, id)) && NoNegatedNil(e, false) ==>
              Holds(Normalize(e), BothSides(s, id)) == Holds(e, BothSides(s, id))
  {
    hide BothSides, Mirrored, Normalize, Holds, EveryPredicate, NoNegatedNil, Decides;
    var i := BothSides(s, id);
    forall p: Predicate | EitherBound(s)(p)
      ensures SoundFor(i)(p)
    {
      EitherTame(s, id, p);
    }
    EveryImplies(e, EitherBound(s), SoundFor(i));
    NormalizeStrengthens(e, i);
    if EveryPredicate(e, DecidesAligned(s, id)) && NoNegatedNil(e, false) {
      forall p: Predicate | DecidesAligned(s, id)(p)
        ensures TameFor(i)(p)
      {
        EitherTame(s, id, p);
      }
      EveryImplies(e, DecidesAligned(s, id), TameFor(i));
      NormalizeHolds(e, i);
    }
  }

  lemma EitherNormalized(e: Expression, s: Slice)
    requires EveryPredicate(e, EitherBound(s))
    ensures Bound(Normalize(e), s)
  {
    hide Normalize, EveryPredicate;
    forall p: Predicate | EitherBound(s)(p)
      ensures AfterAligning(BoundTo(s))(p)
    {
      assert BoundPredicate(AlignPredicate(p), s);
    }
    EveryImplies(e, EitherBound(s), AfterAligning(BoundTo(s)));
    NormalizePredicates(e, BoundTo(s));
  }

  lemma {:induction false} SameOnBound(e: Expression, s: Slice, id: nat)
    requires Bound(e, s)
    ensures Holds(e, BothSides(s, id)) == Holds(e, RowMeaning(s, id))
  {
    match e
    case Empty =>
    case Conjunction(ops) =>
      forall x | x in ops
        ensures Holds(x, BothSides(s, id)) == Holds(x, RowMeaning(s, id))
      {
        SameOnBound(x, s, id);
      }
    case Disjunction(ops) =>
      forall x | x in ops
        ensures Holds(x, BothSides(s, id)) == Holds(x, RowMeaning(s, id))
      {
        SameOnBound(x, s, id);
      }
    case Negation(x) => SameOnBound(x, s, id);
    case Atom(p) => BothSidesOf(s, id, p);
  }

  /** Normalizing makes an expression with values on either side fit for evaluation, and loses
      rows only that do not decide its predicates, or by negated nils. */
  method EvaluateNormalized(e: Expression, s: Slice, hints: Ids) returns (result: Ids)
    requires WellFormed(s) && Mirrored(s.comparisons) && EveryPredicate(e, EitherBound(s))
    ensures |result| == Offset(s) + s.rows
    ensures forall id :: 0 <= id < |result| && result[id] ==> Asked(s, hints, id) && Holds(e, BothSides(s, id))
    ensures forall id :: 0 <= id < |result| && EveryPredicate(e, DecidesAligned(s, id)) && NoNegatedNil(e, false) ==>
              result[id] == (Asked(s, hints, id) && Holds(e, BothSides(s, id)))
  {
    hide BothSides, Mirrored, Normalize, Holds, EveryPredicate, NoNegatedNil, RowMeaning;
    var n := NormalizeExpression(e);
    EitherNormalized(e, s);
    result := Evaluate(n, s, hints);
    forall id | 0 <= id < |result|
      ensures result[id] ==> Asked(s, hints, id) && Holds(e, BothSides(s, id))
      ensures EveryPredicate(e, DecidesAligned(s, id)) && NoNegatedNil(e, false) ==>
                result[id] == (Asked(s, hints, id) && Holds(e, BothSides(s, id)))
    {
      SameOnBound(n, s, id);
      NormalOfEither(e, s, id);
    }
  }
}
