// Evaluation of expressions over a table slice with selection bitmaps.
module Evaluation {
  import opened Options
  import opened Expressions
  import opened Words

  datatype PartialOrdering = Unordered | Lower | Equivalent | Higher

  /** The comparisons of cell values that the evaluator is built from. Values of unrelated
      types are unordered, and so is a number that is not one. */
  datatype Comparisons = Comparisons(
    equal: (Data, Data) -> bool,
    order: (Data, Data) -> PartialOrdering,
    isIn: (Data, Data) -> bool)

  function CellHolds(c: Comparisons, op: RelationalOperator, lhs: Data, rhs: Data): bool {
    match op
    case Equal => c.equal(lhs, rhs)
    case NotEqual => !c.equal(lhs, rhs)
    case Less => c.order(lhs, rhs) == Lower
    case LessEqual => c.order(lhs, rhs) in {Lower, Equivalent}
    case Greater => c.order(lhs, rhs) == Higher
    case GreaterEqual => c.order(lhs, rhs) in {Higher, Equivalent}
    case In => c.isIn(lhs, rhs)
    case NotIn => !c.isIn(lhs, rhs)
    case Ni => c.isIn(rhs, lhs)
    case NotNi => !c.isIn(rhs, lhs)
  }

  datatype ColumnType = TextColumn | EnumerationColumn(keys: map<string, nat>) | OtherColumn

  /** A column of cells; a missing cell is null. */
  datatype Column = Column(typ: ColumnType, cells: seq<Option<Data>>)

  datatype Slice = Slice(
    firstId: Option<nat>,
    rows: nat,
    columns: seq<Column>,
    comparisons: Comparisons,
    meta: MetaKind -> Data)

  type Ids = seq<bool>

  function Offset(s: Slice): nat {
    match s.firstId
    case None => 0
    case Some(id) => id
  }

  ghost predicate WellFormed(s: Slice) {
    forall c :: 0 <= c < |s.columns| ==> |s.columns[c].cells| == s.rows
  }

  /** A predicate the evaluator can handle: an extractor bound to the slice, and a value. */
  predicate BoundPredicate(p: Predicate, s: Slice) {
    && p.rhs.Literal?
    && (p.lhs.MetaExtractor? || (p.lhs.DataExtractor? && p.lhs.column < |s.columns|))
  }

  function BoundTo(s: Slice): Predicate -> bool {
    p => BoundPredicate(p, s)
  }

  predicate Bound(e: Expression, s: Slice) {
    EveryPredicate(e, BoundTo(s))
  }

  // -- what a predicate means on one row ------------------------------------------------------

  /** A cell compared with a value. Null cells match nothing but a comparison with nil. */
  function CellMatches(c: Comparisons, typ: ColumnType, op: RelationalOperator, cell: Option<Data>, rhs: Data): bool {
    if rhs.Nil? then
      (op == Equal && cell.None?) || (op == NotEqual && cell.Some?)
    else if typ.EnumerationColumn? && rhs.Text? then
      rhs.text in typ.keys && cell.Some? && CellHolds(c, op, cell.value, EnumKey(typ.keys[rhs.text]))
    else
      cell.Some? && CellHolds(c, op, cell.value, rhs)
  }

  /** The meaning of predicates for the row with a given id. */
  function RowMeaning(s: Slice, id: nat): Interpretation {
    p =>
      if !BoundPredicate(p, s) then false
      else if p.lhs.MetaExtractor? then
        CellHolds(s.comparisons, p.op, s.meta(p.lhs.kind), p.rhs.data)
      else
        var column := s.columns[p.lhs.column];
        Offset(s) <= id < Offset(s) + |column.cells|
        && CellMatches(s.comparisons, column.typ, p.op, column.cells[id - Offset(s)], p.rhs.data)
  }

  // -- column evaluators ------------------------------------------------------------------------

  /** The selected rows whose cells pass a test. */
  ghost predicate SelectedBy(r: Ids, offset: nat, cells: seq<Option<Data>>, selection: Ids, test: Option<Data> -> bool) {
    && |r| == offset + |cells|
    && forall id :: 0 <= id < |r| ==>
         r[id] == (offset <= id && id < |selection| && selection[id] && test(cells[id - offset]))
  }

  function Zeros(n: nat): (r: Ids)
    ensures |r| == n && forall i :: 0 <= i < n ==> !r[i]
  {
    seq(n, _ => false)
  }

  /** Selections name no rows before the slice and none behind it. */
  ghost predicate SelectionOf(selection: Ids, offset: nat, rows: nat) {
    |selection| == offset + rows && forall id :: 0 <= id < offset ==> !selection[id]
  }

  method EvaluateCells(c: Comparisons, op: RelationalOperator, offset: nat, cells: seq<Option<Data>>, rhs: Data,
                       selection: Ids)
    returns (result: Ids)
    requires SelectionOf(selection, offset, |cells|)
    ensures SelectedBy(result, offset, cells, selection,
                       (cell: Option<Data>) => cell.Some? && CellHolds(c, op, cell.value, rhs))
  {
    result := [];
    for id := 0 to |selection|
      invariant |result| <= id
      invariant forall j :: 0 <= j < |result| ==>
                  result[j] == (selection[j] && cells[j - offset].Some?
                                && CellHolds(c, op, cells[j - offset].value, rhs))
      invariant forall j :: |result| <= j < id ==> !(selection[j] && cells[j - offset].Some?)
    {
      if selection[id] {
        var cell := cells[id - offset];
        if cell.Some? {
          result := result + Zeros(id - |result|);
          result := result + [CellHolds(c, op, cell.value, rhs)];
        }
      }
    }
    result := result + Zeros(offset + |cells| - |result|);
  }

  /** Comparison with nil: null cells are equal to it, all others are not. */
  method EvaluateNil(equal: bool, offset: nat, cells: seq<Option<Data>>, selection: Ids) returns (result: Ids)
    requires SelectionOf(selection, offset, |cells|)
    ensures SelectedBy(result, offset, cells, selection, (cell: Option<Data>) => cell.None? == equal)
  {
    result := [];
    for id := 0 to |selection|
      invariant |result| <= id
      invariant forall j :: 0 <= j < |result| ==> result[j] == (selection[j] && cells[j - offset].None? == equal)
      invariant forall j :: |result| <= j < id ==> !(selection[j] && cells[j - offset].None? == equal)
    {
      if selection[id] {
        if cells[id - offset].None? == equal {
          result := result + Zeros(id - |result|);
          result := result + [true];
        }
      }
    }
    result := result + Zeros(offset + |cells| - |result|);
  }

  /** Pattern comparison of text columns, which appends a bit for matches only. */
  method EvaluatePattern(c: Comparisons, negated: bool, offset: nat, cells: seq<Option<Data>>, rhs: Data,
                         selection: Ids)
    returns (result: Ids)
    requires SelectionOf(selection, offset, |cells|)
    ensures SelectedBy(result, offset, cells, selection,
                       (cell: Option<Data>) => cell.Some? && CellHolds(c, if negated then NotEqual else Equal, cell.value, rhs))
  {
    result := [];
    for id := 0 to |selection|
      invariant |result| <= id
      invariant forall j :: 0 <= j < |result| ==>
                  result[j] == (selection[j] && cells[j - offset].Some?
                                && c.equal(cells[j - offset].value, rhs) != negated)
      invariant forall j :: |result| <= j < id ==>
                  !(selection[j] && cells[j - offset].Some? && c.equal(cells[j - offset].value, rhs) != negated)
    {
      if selection[id] {
        var cell := cells[id - offset];
        if cell.Some? {
          result := result + Zeros(id - |result|);
          if c.equal(cell.value, rhs) != negated {
            result := result + [true];
          }
        }
      }
    }
    result := result + Zeros(offset + |cells| - |result|);
  }

  method EvaluateColumn(c: Comparisons, column: Column, op: RelationalOperator, rhs: Data, offset: nat, selection: Ids)
    returns (result: Ids)
    requires SelectionOf(selection, offset, |column.cells|)
    ensures SelectedBy(result, offset, column.cells, selection, (cell: Option<Data>) => CellMatches(c, column.typ, op, cell, rhs))
  {
    if rhs.Nil? {
      if op == Equal {
        result := EvaluateNil(true, offset, column.cells, selection);
      } else if op == NotEqual {
        result := EvaluateNil(false, offset, column.cells, selection);
      } else {
        result := Zeros(offset + |column.cells|);
      }
    } else if column.typ.TextColumn? && rhs.Pattern? && (op == Equal || op == NotEqual) {
      result := EvaluatePattern(c, op == NotEqual, offset, column.cells, rhs, selection);
    } else if column.typ.EnumerationColumn? && rhs.Text? {
      if rhs.text in column.typ.keys {
        result := EvaluateCells(c, op, offset, column.cells, EnumKey(column.typ.keys[rhs.text]), selection);
      } else {
        result := Zeros(offset + |column.cells|);
      }
    } else {
      result := EvaluateCells(c, op, offset, column.cells, rhs, selection);
    }
  }

  // -- expressions -----------------------------------------------------------------------------

  predicate Any(ids: Ids) {
    true in ids
  }

  /** The selected rows that satisfy an expression; in particular, none that are not selected. */
  ghost predicate Answer(r: Ids, e: Expression, s: Slice, selection: Ids) {
    |r| == |selection| && forall id :: 0 <= id < |r| ==> r[id] == (selection[id] && Holds(e, RowMeaning(s, id)))
  }

  method EvaluatePredicate(p: Predicate, s: Slice, selection: Ids) returns (r: Ids)
    requires WellFormed(s) && BoundPredicate(p, s) && SelectionOf(selection, Offset(s), s.rows)
    ensures Answer(r, Atom(p), s, selection)
  {
    if !Any(selection) {
      return Zeros(Offset(s) + s.rows);
    }
    if p.lhs.MetaExtractor? {
      var holds := CellHolds(s.comparisons, p.op, s.meta(p.lhs.kind), p.rhs.data);
      r := if holds then selection else Zeros(Offset(s) + s.rows);
    } else {
      var column := s.columns[p.lhs.column];
      r := EvaluateColumn(s.comparisons, column, p.op, p.rhs.data, Offset(s), selection);
    }
  }

  function AndNot(a: Ids, b: Ids): (r: Ids)
    requires |a| == |b|
    ensures |r| == |a| && forall i :: 0 <= i < |a| ==> r[i] == (a[i] && !b[i])
  {
    seq(|a|, i requires 0 <= i < |a| => a[i] && !b[i])
  }

  /** Conjunctions narrow the selection from operand to operand. */
  method EvaluateConjunction(ops: seq<Expression>, s: Slice, initial: Ids) returns (selection: Ids)
    requires WellFormed(s) && SelectionOf(initial, Offset(s), s.rows) && forall x | x in ops :: Bound(x, s)
    ensures Answer(selection, Conjunction(ops), s, initial)
    decreases ops, 0
  {
    selection := initial;
    var k := 0;
    while k < |ops|
      invariant 0 <= k <= |ops|
      invariant SelectionOf(selection, Offset(s), s.rows)
      invariant Narrowed(selection, ops[..k], s, initial)
    {
      if !Any(selection) {
        NothingLeft(selection, ops, k, s, initial);
        return;
      }
      var r := EvaluateExpression(ops[k], s, selection);
      NarrowFurther(r, selection, ops, k, s, initial);
      selection := r;
      k := k + 1;
    }
    assert ops[..k] == ops;
  }

  ghost predicate Narrowed(r: Ids, ops: seq<Expression>, s: Slice, initial: Ids) {
    |r| == |initial|
    && forall id :: 0 <= id < |r| ==> r[id] == (initial[id] && forall x | x in ops :: Holds(x, RowMeaning(s, id)))
  }

  lemma NothingLeft(r: Ids, ops: seq<Expression>, k: nat, s: Slice, initial: Ids)
    requires k <= |ops| && Narrowed(r, ops[..k], s, initial) && !Any(r)
    ensures Answer(r, Conjunction(ops), s, initial)
  {
    hide RowMeaning;
    forall id | 0 <= id < |r|
      ensures r[id] == (initial[id] && Holds(Conjunction(ops), RowMeaning(s, id)))
    {
      assert r[id] in r;
      if initial[id] {
        var x :| x in ops[..k] && !Holds(x, RowMeaning(s, id));
        assert x in ops;
      }
    }
  }

  lemma NarrowFurther(r: Ids, selection: Ids, ops: seq<Expression>, k: nat, s: Slice, initial: Ids)
    requires k < |ops| && Narrowed(selection, ops[..k], s, initial) && Answer(r, ops[k], s, selection)
    ensures Narrowed(r, ops[..k + 1], s, initial)
  {
    hide RowMeaning, Holds;
    assert ops[..k + 1] == ops[..k] + [ops[k]];
  }

  /** Disjunctions only ask the operands about rows that no operand matched yet. */
  method EvaluateDisjunction(ops: seq<Expression>, s: Slice, selection: Ids) returns (r: Ids)
    requires WellFormed(s) && SelectionOf(selection, Offset(s), s.rows) && forall x | x in ops :: Bound(x, s)
    ensures Answer(r, Disjunction(ops), s, selection)
    decreases ops, 0
  {
    var mask := selection;
    var k := 0;
    while k < |ops|
      invariant 0 <= k <= |ops|
      invariant SelectionOf(mask, Offset(s), s.rows)
      invariant Unmatched(mask, ops[..k], s, selection)
    {
      if !Any(mask) {
        NoneUnmatched(mask, ops, k, s, selection);
        return selection;
      }
      var matched := EvaluateExpression(ops[k], s, mask);
      FewerUnmatched(matched, mask, ops, k, s, selection);
      mask := AndNot(mask, matched);
      k := k + 1;
    }
    assert ops[..k] == ops;
    r := AndNot(selection, mask);
    MatchedAnswer(r, mask, ops, s, selection);
  }

  ghost predicate Unmatched(mask: Ids, ops: seq<Expression>, s: Slice, selection: Ids) {
    |mask| == |selection|
    && forall id :: 0 <= id < |mask| ==>
         mask[id] == (selection[id] && forall x | x in ops :: !Holds(x, RowMeaning(s, id)))
  }

  lemma NoneUnmatched(mask: Ids, ops: seq<Expression>, k: nat, s: Slice, selection: Ids)
    requires k <= |ops| && Unmatched(mask, ops[..k], s, selection) && !Any(mask)
    ensures Answer(selection, Disjunction(ops), s, selection)
  {
    hide RowMeaning;
    forall id | 0 <= id < |selection|
      ensures selection[id] == (selection[id] && Holds(Disjunction(ops), RowMeaning(s, id)))
    {
      assert mask[id] in mask;
      if selection[id] {
        var x :| x in ops[..k] && Holds(x, RowMeaning(s, id));
        assert x in ops;
      }
    }
  }

  lemma FewerUnmatched(matched: Ids, mask: Ids, ops: seq<Expression>, k: nat, s: Slice, selection: Ids)
    requires k < |ops| && Unmatched(mask, ops[..k], s, selection) && Answer(matched, ops[k], s, mask)
    ensures Unmatched(AndNot(mask, matched), ops[..k + 1], s, selection)
  {
    hide RowMeaning, Holds;
    assert ops[..k + 1] == ops[..k] + [ops[k]];
  }

  lemma MatchedAnswer(r: Ids, mask: Ids, ops: seq<Expression>, s: Slice, selection: Ids)
    requires Unmatched(mask, ops, s, selection) && r == AndNot(selection, mask)
    ensures Answer(r, Disjunction(ops), s, selection)
  {
    hide RowMeaning;
  }

  method EvaluateExpression(e: Expression, s: Slice, selection: Ids) returns (r: Ids)
    requires WellFormed(s) && Bound(e, s) && SelectionOf(selection, Offset(s), s.rows)
    ensures Answer(r, e, s, selection) && SelectionOf(r, Offset(s), s.rows)
    decreases e
  {
    match e
    case Empty => r := Zeros(Offset(s) + s.rows);
    case Conjunction(ops) => r := EvaluateConjunction(ops, s, selection);
    case Disjunction(ops) => r := EvaluateDisjunction(ops, s, selection);
    case Negation(x) =>
      // The result is a subset of the selection, so exclusive-or takes it away.
      var y := EvaluateExpression(x, s, selection);
      r := Xor(selection, y);
    case Atom(p) => r := EvaluatePredicate(p, s, selection);
  }

  /** Selects the hinted rows of the slice, or all of them if there are no hints. */
  method Select(s: Slice, hints: Ids) returns (selection: Ids)
    ensures SelectionOf(selection, Offset(s), s.rows)
    ensures forall id :: Offset(s) <= id < Offset(s) + s.rows ==>
              selection[id] == (hints == [] || (id < |hints| && hints[id]))
  {
    var offset := Offset(s);
    selection := Zeros(offset);
    if hints == [] {
      selection := selection + seq(s.rows, _ => true);
    } else {
      var hint := 0;
      while hint < |hints|
        invariant 0 <= hint <= |hints| && offset <= |selection|
        invariant hint <= offset ==> |selection| == offset
        invariant hint > offset ==> |selection| <= hint && |selection| <= offset + s.rows
        invariant forall j :: 0 <= j < offset ==> !selection[j]
        invariant forall j :: offset <= j < |selection| ==> j < hint && selection[j] == hints[j]
        invariant forall j :: |selection| <= j < hint ==> !hints[j]
      {
        if hints[hint] && hint >= offset {
          if hint >= offset + s.rows {
            break;
          }
          selection := selection + Zeros(hint - |selection|);
          selection := selection + [true];
        }
        hint := hint + 1;
      }
      selection := selection + Zeros(offset + s.rows - |selection|);
    }
  }

  /** The rows of the slice that are hinted and satisfy the expression. */
  method Evaluate(e: Expression, s: Slice, hints: Ids) returns (result: Ids)
    requires WellFormed(s) && Bound(e, s)
    ensures |result| == Offset(s) + s.rows
    ensures forall id :: 0 <= id < |result| ==>
              result[id] == (Offset(s) <= id && (hints == [] || (id < |hints| && hints[id]))
                             && Holds(e, RowMeaning(s, id)))
  {
    var selection := Select(s, hints);
    result := EvaluateExpression(e, s, selection);
  }
}
